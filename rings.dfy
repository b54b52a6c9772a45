/** Circular doubly-linked rings of node ids, threaded through `left` and `right`
    arrays indexed by node id: the root list and every child list of the Fibonacci heap.
    A ring is described by the sequence of its members in `right` order. */
module Rings {

  /** The null reference among node ids. */
  const NIL := -1

  ghost predicate Distinct(s: seq<int>)
  {
    forall i, j :: 0 <= i < j < |s| ==> s[i] != s[j]
  }

  /** The position after `k` among `n` positions arranged in a circle. */
  function Succ(n: nat, k: nat): nat
  {
    if k + 1 >= n then 0 else k + 1
  }

  /** `s` is a non-empty ring: distinct ids, each one's `right` is the next member and
      the next member's `left` points back, the last wrapping around to the first. */
  ghost predicate Ring(s: seq<int>, left: seq<int>, right: seq<int>)
  {
    && |s| > 0
    && |left| == |right|
    && Distinct(s)
    && (forall i :: 0 <= i < |s| ==> 0 <= s[i] < |right| && 0 <= left[s[i]] < |right|)
    && (forall i {:trigger right[s[i]]} :: 0 <= i < |s| ==> right[s[i]] == s[Succ(|s|, i)])
    && (forall i {:trigger s[Succ(|s|, i)]} :: 0 <= i < |s| ==> left[s[Succ(|s|, i)]] == s[i])
  }

  /** The position of `x` in `s`. */
  function IndexOf(s: seq<int>, x: int): (i: nat)
    requires x in s
    ensures i < |s| && s[i] == x
    ensures forall j :: 0 <= j < i ==> s[j] != x
  {
    if s[0] == x then 0 else 1 + IndexOf(s[1..], x)
  }

  /** `s` with `x` spliced in right after position `i`. */
  function InsertAfter(s: seq<int>, i: nat, x: int): (t: seq<int>)
    requires i < |s|
    ensures |t| == |s| + 1 && t[i + 1] == x
    ensures forall k :: 0 <= k <= i ==> t[k] == s[k]
    ensures forall k :: i < k < |s| ==> t[k + 1] == s[k]
  {
    s[..i + 1] + [x] + s[i + 1..]
  }

  /** `s` without its member at position `i`. */
  function RemoveAt(s: seq<int>, i: nat): (t: seq<int>)
    requires i < |s|
    ensures |t| == |s| - 1
    ensures forall k :: 0 <= k < i ==> t[k] == s[k]
    ensures forall k :: i <= k < |t| ==> t[k] == s[k + 1]
  {
    s[..i] + s[i + 1..]
  }

  lemma DistinctIndex(s: seq<int>, i: nat, j: nat)
    requires Distinct(s) && i < |s| && j < |s|
    ensures s[i] == s[j] ==> i == j
  {
  }

  lemma InsertAfterMembers(s: seq<int>, i: nat, x: int)
    requires i < |s|
    ensures forall y :: y in InsertAfter(s, i, x) <==> y in s || y == x
  {
    var t := InsertAfter(s, i, x);
    forall y | y in s ensures y in t {
      var k :| 0 <= k < |s| && s[k] == y;
      if k <= i { assert t[k] == y; } else { assert t[k + 1] == y; }
    }
    forall y | y in t ensures y in s || y == x {
      var k :| 0 <= k < |t| && t[k] == y;
      if k <= i { assert s[k] == y; } else if k > i + 1 { assert s[k - 1] == y; }
    }
  }

  lemma RemoveAtMembers(s: seq<int>, i: nat)
    requires i < |s| && Distinct(s)
    ensures forall y :: y in RemoveAt(s, i) <==> y in s && y != s[i]
    ensures Distinct(RemoveAt(s, i))
  {
    var t := RemoveAt(s, i);
    forall y | y in s && y != s[i] ensures y in t {
      var k :| 0 <= k < |s| && s[k] == y;
      if k < i { assert t[k] == y; } else { assert t[k - 1] == y; }
    }
    forall y | y in t ensures y in s && y != s[i] {
      var k :| 0 <= k < |t| && t[k] == y;
      if k < i { assert s[k] == y; } else { assert s[k + 1] == y; }
    }
  }

  lemma InsertAfterDistinct(s: seq<int>, i: nat, x: int)
    requires Distinct(s) && i < |s| && x !in s
    ensures Distinct(InsertAfter(s, i, x))
  {
    var t := InsertAfter(s, i, x);
    forall p, q | 0 <= p < q < |t| ensures t[p] != t[q] {
      if p == i + 1 {
        assert t[q] == s[q - 1];
      } else if q == i + 1 {
        assert t[p] == s[p];
      } else {
        var p' := if p <= i then p else p - 1;
        var q' := if q <= i then q else q - 1;
        assert t[p] == s[p'] && t[q] == s[q'];
      }
    }
  }

  /** A link of the spliced ring before the splice point is a link of the old ring. */
  lemma RingInsertLinkBefore(s: seq<int>, left: seq<int>, right: seq<int>, i: nat, x: int, k: nat)
    requires Ring(s, left, right) && i < |s| && 0 <= x < |right| && x !in s && k < i
    ensures var t := InsertAfter(s, i, x);
            var L := left[x := s[i]][right[s[i]] := x];
            var R := right[x := right[s[i]]][s[i] := x];
            R[t[k]] == t[Succ(|t|, k)] && L[t[Succ(|t|, k)]] == t[k]
  {
    var n := |s|;
    var t := InsertAfter(s, i, x);
    assert t[k] == s[k] && t[k + 1] == s[k + 1] && Succ(n + 1, k) == k + 1 == Succ(n, k);
    DistinctIndex(s, k, i);
    DistinctIndex(s, k + 1, Succ(n, i));
  }

  /** The four splice writes leave a link `y -> z` alone when neither end is touched. */
  lemma SpliceKeeps(left: seq<int>, right: seq<int>, a: int, x: int, y: int, z: int)
    requires |left| == |right| && 0 <= a < |right| && 0 <= x < |right| && 0 <= right[a] < |right|
    requires 0 <= y < |right| && 0 <= z < |left|
    requires right[y] == z && left[z] == y && y != a && y != x && z != x && z != right[a]
    ensures right[x := right[a]][a := x][y] == z && left[x := a][right[a] := x][z] == y
  {
  }

  /** A link of the spliced ring after the new member is a link of the old ring. */
  lemma RingInsertLinkAfter(s: seq<int>, left: seq<int>, right: seq<int>, i: nat, x: int, k: nat)
    requires Ring(s, left, right) && i < |s| && 0 <= x < |right| && x !in s && i + 1 < k <= |s|
    ensures var t := InsertAfter(s, i, x);
            var L := left[x := s[i]][right[s[i]] := x];
            var R := right[x := right[s[i]]][s[i] := x];
            R[t[k]] == t[Succ(|t|, k)] && L[t[Succ(|t|, k)]] == t[k]
  {
    var n := |s|;
    var t := InsertAfter(s, i, x);
    var j := Succ(n, k - 1);
    assert t[k] == s[k - 1] && t[Succ(n + 1, k)] == s[j];
    assert right[s[i]] == s[Succ(n, i)];
    DistinctIndex(s, k - 1, i);
    DistinctIndex(s, j, Succ(n, i));
    SpliceKeeps(left, right, s[i], x, s[k - 1], s[j]);
  }

  /** One link of the spliced ring, out of position `k`. */
  lemma RingInsertLink(s: seq<int>, left: seq<int>, right: seq<int>, i: nat, x: int, k: nat)
    requires Ring(s, left, right) && i < |s| && 0 <= x < |right| && x !in s && k <= |s|
    ensures var t := InsertAfter(s, i, x);
            var L := left[x := s[i]][right[s[i]] := x];
            var R := right[x := right[s[i]]][s[i] := x];
            R[t[k]] == t[Succ(|t|, k)] && L[t[Succ(|t|, k)]] == t[k]
  {
    var n := |s|;
    var t := InsertAfter(s, i, x);
    if k < i {
      RingInsertLinkBefore(s, left, right, i, x, k);
    } else if k == i {
    } else if k == i + 1 {
      assert t[Succ(n + 1, k)] == s[Succ(n, i)];
    } else {
      RingInsertLinkAfter(s, left, right, i, x, k);
    }
  }

  /** Splicing a new id into a ring after its member `s[i]`, by the four pointer writes
      `x.left = a; x.right = a.right; a.right.left = x; a.right = x`, gives a ring. */
  lemma RingInsert(s: seq<int>, left: seq<int>, right: seq<int>, i: nat, x: int)
    requires Ring(s, left, right) && i < |s| && 0 <= x < |right| && x !in s
    ensures Ring(InsertAfter(s, i, x),
                 left[x := s[i]][right[s[i]] := x],
                 right[x := right[s[i]]][s[i] := x])
  {
    var a := s[i];
    var L := left[x := a][right[a] := x];
    var R := right[x := right[a]][a := x];
    var t := InsertAfter(s, i, x);
    InsertAfterDistinct(s, i, x);
    forall k | 0 <= k < |t| ensures R[t[k]] == t[Succ(|t|, k)] && L[t[Succ(|t|, k)]] == t[k] {
      RingInsertLink(s, left, right, i, x, k);
    }
    RingInsertRange(s, left, right, i, x);
  }

  /** The ids of the spliced ring, and their left neighbours, are in range. */
  lemma RingInsertRange(s: seq<int>, left: seq<int>, right: seq<int>, i: nat, x: int)
    requires Ring(s, left, right) && i < |s| && 0 <= x < |right|
    ensures var t := InsertAfter(s, i, x);
            var L := left[x := s[i]][right[s[i]] := x];
            forall k :: 0 <= k < |t| ==> 0 <= t[k] < |right| && 0 <= L[t[k]] < |right|
  {
    var t := InsertAfter(s, i, x);
    var L := left[x := s[i]][right[s[i]] := x];
    forall k | 0 <= k < |t| ensures 0 <= t[k] < |right| && 0 <= L[t[k]] < |right| {
      if k != i + 1 {
        var k' := if k <= i then k else k - 1;
        assert t[k] == s[k'];
      }
    }
  }

  /** The two unlink writes leave a link `y -> z` alone when neither end is touched. */
  lemma UnlinkKeeps(left: seq<int>, right: seq<int>, x: int, y: int, z: int)
    requires |left| == |right| && 0 <= x < |right| && 0 <= left[x] < |right| && 0 <= right[x] < |left|
    requires 0 <= y < |right| && 0 <= z < |left| && left[x] != x
    requires right[y] == z && left[z] == y && y != left[x] && z != right[x]
    ensures var R := right[left[x] := right[x]];
            R[y] == z && left[R[x] := left[x]][z] == y
  {
  }

  /** One link of the ring left after unlinking `s[i]`, out of position `k`. */
  lemma RingRemoveLink(s: seq<int>, left: seq<int>, right: seq<int>, i: nat, k: nat)
    requires Ring(s, left, right) && i < |s| && |s| >= 2 && k < |s| - 1
    ensures var x := s[i];
            var R := right[left[x] := right[x]];
            var L := left[R[x] := left[x]];
            var t := RemoveAt(s, i);
            R[t[k]] == t[Succ(|t|, k)] && L[t[Succ(|t|, k)]] == t[k]
  {
    var x := s[i];
    var n := |s|;
    var t := RemoveAt(s, i);
    var prev := if i == 0 then n - 1 else i - 1;
    var next := Succ(n, i);
    assert Succ(n, prev) == i;
    assert left[x] == s[prev];
    assert right[x] == s[next];
    DistinctIndex(s, prev, i);
    var k0 := if k < i then k else k + 1;
    var j := Succ(n - 1, k);
    var k1 := if j < i then j else j + 1;
    assert t[k] == s[k0] && t[j] == s[k1];
    if k0 == prev {
      assert k1 == next;
    } else {
      DistinctIndex(s, k0, prev);
      assert k1 == Succ(n, k0);
      DistinctIndex(s, k1, next);
      UnlinkKeeps(left, right, x, s[k0], s[k1]);
    }
  }

  /** Unlinking the member `s[i]` of a ring of two or more, by
      `x.left.right = x.right; x.right.left = x.left`, leaves a ring of the others. */
  lemma RingRemove(s: seq<int>, left: seq<int>, right: seq<int>, i: nat)
    requires Ring(s, left, right) && i < |s| && |s| >= 2
    ensures var x := s[i];
            var R := right[left[x] := right[x]];
            Ring(RemoveAt(s, i), left[R[x] := left[x]], R)
  {
    var x := s[i];
    var R := right[left[x] := right[x]];
    var L := left[R[x] := left[x]];
    var t := RemoveAt(s, i);
    RemoveAtMembers(s, i);
    forall k | 0 <= k < |t| ensures R[t[k]] == t[Succ(|t|, k)] && L[t[Succ(|t|, k)]] == t[k] {
      RingRemoveLink(s, left, right, i, k);
    }
    forall k | 0 <= k < |t| ensures 0 <= t[k] < |R| && 0 <= L[t[k]] < |R| {
      var k' := if k < i then k else k + 1;
      assert t[k] == s[k'];
    }
  }

  /** `s` read from position `i` on: `s[i..] + s[..i]`, entry by entry. */
  lemma RotateAt(s: seq<int>, i: nat, k: nat)
    requires i < |s| && k < |s|
    ensures var t := s[i..] + s[..i];
            var n := |s|;
            var k' := if k < n - i then k + i else k + i - n;
            t[k] == s[k'] && t[Succ(n, k)] == s[Succ(n, k')]
  {
  }

  lemma RotateDistinct(s: seq<int>, i: nat)
    requires Distinct(s) && i < |s|
    ensures Distinct(s[i..] + s[..i])
  {
    var t := s[i..] + s[..i];
    var n := |s|;
    forall p, q | 0 <= p < q < n ensures t[p] != t[q] {
      var p' := if p < n - i then p + i else p + i - n;
      var q' := if q < n - i then q + i else q + i - n;
      assert t[p] == s[p'] && t[q] == s[q'];
      DistinctIndex(s, p', q');
    }
  }

  lemma RotateMembers(s: seq<int>, i: nat)
    requires i < |s|
    ensures forall y :: y in s[i..] + s[..i] <==> y in s
  {
    var t := s[i..] + s[..i];
    var n := |s|;
    forall y | y in s ensures y in t {
      var k :| 0 <= k < n && s[k] == y;
      if k >= i { assert t[k - i] == y; } else { assert t[n - i + k] == y; }
    }
  }

  /** A ring read from another of its members is the same ring. */
  lemma RingRotate(s: seq<int>, left: seq<int>, right: seq<int>, i: nat)
    requires Ring(s, left, right) && i < |s|
    ensures Ring(s[i..] + s[..i], left, right)
    ensures forall y :: y in s[i..] + s[..i] <==> y in s
  {
    var t := s[i..] + s[..i];
    var n := |s|;
    RotateDistinct(s, i);
    forall k | 0 <= k < n
      ensures 0 <= t[k] < |right| && 0 <= left[t[k]] < |right|
      ensures right[t[k]] == t[Succ(n, k)] && left[t[Succ(n, k)]] == t[k]
    {
      RotateAt(s, i, k);
    }
    RotateMembers(s, i);
  }

  /** A ring stays a ring under new (possibly longer) `left`/`right` sequences that
      agree on its members. */
  lemma RingFrame(s: seq<int>, left: seq<int>, right: seq<int>, left': seq<int>, right': seq<int>)
    requires Ring(s, left, right) && |left'| == |right'| >= |right|
    requires forall y :: y in s && 0 <= y < |right| ==> left'[y] == left[y] && right'[y] == right[y]
    ensures Ring(s, left', right')
  {
    assert forall k :: 0 <= k < |s| ==> s[k] in s;
  }

  /** The neighbours of a ring member are members. */
  lemma RingNeighbours(s: seq<int>, left: seq<int>, right: seq<int>, x: int)
    requires Ring(s, left, right) && x in s
    ensures left[x] in s && right[x] in s
    ensures right[x] == x <==> |s| == 1
    ensures left[x] == x <==> |s| == 1
  {
    var i := IndexOf(s, x);
    var n := |s|;
    var prev := if i == 0 then n - 1 else i - 1;
    assert Succ(n, prev) == i;
    DistinctIndex(s, i, Succ(n, i));
    DistinctIndex(s, i, prev);
  }

  /** Unlinking the member at position `i` leaves the others a ring, and the member is
      then made a ring of its own. */
  lemma RingDetach(s: seq<int>, left: seq<int>, right: seq<int>, i: nat)
    requires Ring(s, left, right) && i < |s| && |s| >= 2
    ensures var x := s[i];
            var R := right[left[x] := right[x]];
            var L := left[R[x] := left[x]];
            && Ring(RemoveAt(s, i), L[x := x], R[x := x])
            && RemoveAt(s, i)[0] == (if i == 0 then right[x] else s[0])
  {
    var x := s[i];
    var R := right[left[x] := right[x]];
    var L := left[R[x] := left[x]];
    RingRemove(s, left, right, i);
    RemoveAtMembers(s, i);
    RingFrame(RemoveAt(s, i), L, R, L[x := x], R[x := x]);
    if i == 0 {
      assert s[1] == right[x];
    }
  }
}
