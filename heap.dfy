/**
 * A binary min-heap of integers kept in the prefix values[0..used) of an array
 * whose capacity doubles when it is full. The tree is implicit: the children
 * of index i are 2i+1 and 2i+2, so the shape invariant (a complete tree filled
 * level by level, left to right) holds by construction, and the order
 * invariant (every node is at most each of its descendants) is IsMinHeap.
 */
module MinHeap {

  // ---------------------------------------------------------------------------
  // Index arithmetic
  // ---------------------------------------------------------------------------

  /** PARENT(i) is (i - 1) / 2 with C's division, which truncates toward zero,
      so PARENT(0) is 0; every other index has a strictly smaller parent. */
  function Parent(i: nat): (p: nat)
    ensures i > 0 ==> p < i
    ensures i == 0 ==> p == 0
  {
    if i == 0 then 0 else (i - 1) / 2
  }

  /** LEFT(i): the left child, whose parent is i. */
  function Left(i: nat): (l: nat)
    ensures Parent(l) == i && i < l
  {
    2 * i + 1
  }

  /** RIGHT(i): the right child, whose parent is i, just after the left one. */
  function Right(i: nat): (r: nat)
    ensures Parent(r) == i && r == Left(i) + 1
  {
    2 * i + 2
  }

  /** Every non-root index is one of the two children of its parent. */
  lemma ChildOfParent(i: nat)
    requires i > 0
    ensures Left(Parent(i)) == i || Right(Parent(i)) == i
  {
  }

  // ---------------------------------------------------------------------------
  // The order invariant
  // ---------------------------------------------------------------------------

  /** Order invariant, stated edge by edge: no node is smaller than its parent. */
  ghost predicate IsMinHeap(s: seq<int>) {
    forall k :: 0 < k < |s| ==> s[Parent(k)] <= s[k]
  }

  /** The same invariant stated from the parent side: every node is at most
      each of its (present) children. */
  ghost predicate ParentsBelowChildren(s: seq<int>) {
    forall i :: 0 <= i < |s| ==>
      (Left(i) < |s| ==> s[i] <= s[Left(i)]) && (Right(i) < |s| ==> s[i] <= s[Right(i)])
  }

  lemma HeapOrderBothWays(s: seq<int>)
    ensures IsMinHeap(s) <==> ParentsBelowChildren(s)
  {
    if ParentsBelowChildren(s) {
      forall k | 0 < k < |s| ensures s[Parent(k)] <= s[k] {
        ChildOfParent(k);
      }
    }
  }

  /** k lies in the subtree rooted at a (a itself included). */
  predicate InSubtree(a: nat, k: nat)
    decreases k
  {
    k == a || (k > a && InSubtree(a, Parent(k)))
  }

  /** Every index lies in the subtree of the root. */
  lemma {:induction false} AllInRootSubtree(k: nat)
    ensures InSubtree(0, k)
    decreases k
  {
    if k > 0 {
      AllInRootSubtree(Parent(k));
    }
  }

  /** The order invariant as the source states it: each node is at most every
      one of its descendants. */
  lemma {:induction false} NodeBelowDescendants(s: seq<int>, a: nat, k: nat)
    requires IsMinHeap(s) && k < |s| && InSubtree(a, k)
    ensures a < |s| && s[a] <= s[k]
    decreases k
  {
    if k != a {
      NodeBelowDescendants(s, a, Parent(k));
    }
  }

  /** The root of a non-empty heap is its minimum. */
  lemma RootIsMinimum(s: seq<int>)
    requires IsMinHeap(s) && |s| > 0
    ensures forall y :: y in s ==> s[0] <= y
  {
    forall k | 0 <= k < |s| ensures s[0] <= s[k] {
      AllInRootSubtree(k);
      NodeBelowDescendants(s, 0, k);
    }
  }

  // ---------------------------------------------------------------------------
  // Multiset bookkeeping
  // ---------------------------------------------------------------------------

  /** Two sequences with the same elements that agree from n on have the same
      elements below n. */
  lemma SamePrefixMultiset(s: seq<int>, t: seq<int>, n: nat)
    requires |s| == |t| && n <= |s|
    requires multiset(s) == multiset(t) && s[n..] == t[n..]
    ensures multiset(s[..n]) == multiset(t[..n])
  {
    assert s == s[..n] + s[n..];
    assert t == t[..n] + t[n..];
    assert multiset(s[..n]) + multiset(s[n..]) == multiset(t[..n]) + multiset(t[n..]);
    forall y ensures multiset(s[..n])[y] == multiset(t[..n])[y] {
      assert multiset(s)[y] == multiset(s[..n])[y] + multiset(s[n..])[y];
      assert multiset(t)[y] == multiset(t[..n])[y] + multiset(t[n..])[y];
    }
  }

  /** Overwriting the root with the last element and dropping the last slot
      removes exactly the old root from the multiset. */
  lemma LastToRoot(s: seq<int>)
    requires |s| > 0
    ensures multiset(s[0 := s[|s| - 1]][..|s| - 1]) == multiset(s) - multiset{s[0]}
  {
    var n := |s|;
    if n > 1 {
      assert s[0 := s[n - 1]][..n - 1] == [s[n - 1]] + s[1..n - 1];
      assert s == [s[0]] + s[1..n - 1] + [s[n - 1]];
    }
  }

  // ---------------------------------------------------------------------------
  // In-place array operations
  // ---------------------------------------------------------------------------

  /** swap(v, a, b): exchanges v[a] and v[b] and leaves every other cell alone. */
  method Swap(v: array<int>, a: nat, b: nat)
    requires a < v.Length && b < v.Length
    modifies v
    ensures v[a] == old(v[b]) && v[b] == old(v[a])
    ensures forall k :: 0 <= k < v.Length && k != a && k != b ==> v[k] == old(v[k])
    ensures multiset(v[..]) == multiset(old(v[..]))
  {
    var temp := v[a];
    v[a] := v[b];
    v[b] := temp;
  }

  /** bubbleUp(h, i): given that h[0..i) is a min-heap, moves h[i] up while it is
      smaller than its parent, so that h[0..i] becomes a min-heap holding the
      same elements; cells after i are not touched. */
  method BubbleUp(h: array<int>, start: nat)
    requires start < h.Length
    requires IsMinHeap(h[..start])
    modifies h
    ensures IsMinHeap(h[..start + 1])
    ensures multiset(h[..start + 1]) == multiset(old(h[..start + 1]))
    ensures h[start + 1..] == old(h[start + 1..])
  {
    ghost var n := start + 1;
    var i := start;
    while i > 0 && h[i] < h[Parent(i)]
      invariant i <= start
      invariant forall k :: 0 < k < n && k != i ==> h[Parent(k)] <= h[k]
      invariant i > 0 ==> forall k :: 0 < k < n && Parent(k) == i ==> h[Parent(i)] <= h[k]
      invariant multiset(h[..]) == multiset(old(h[..]))
      invariant h[n..] == old(h[n..])
      decreases i
    {
      Swap(h, i, Parent(i));
      i := Parent(i);
    }
    SamePrefixMultiset(h[..], old(h[..]), n);
  }

  /** The sift-down invariant at position i of h[0..n): every parent-child
      pair is ordered except those between i and its children, and the
      parent of i is at most i's children. */
  ghost predicate OrderedBut(s: seq<int>, n: nat, i: nat)
    requires n <= |s|
  {
    && (forall k :: 0 < k < n && Parent(k) != i ==> s[Parent(k)] <= s[k])
    && (i > 0 ==> forall k :: 0 < k < n && Parent(k) == i ==> s[Parent(i)] <= s[k])
  }

  /** Swapping i with its smaller child m, when m is smaller than i, moves the
      single disorder down to m. */
  lemma SwapDown(s: seq<int>, n: nat, i: nat, m: nat)
    requires n <= |s| && OrderedBut(s, n, i)
    requires m < n && Parent(m) == i && s[m] < s[i]
    requires forall k :: 0 < k < n && Parent(k) == i ==> s[m] <= s[k]
    ensures OrderedBut(s[i := s[m]][m := s[i]], n, m)
  {
  }

  /** Once i is no larger than its children, the whole prefix is ordered. */
  lemma SettledAt(s: seq<int>, n: nat, i: nat)
    requires n <= |s| && OrderedBut(s, n, i)
    requires forall k :: 0 < k < n && Parent(k) == i ==> s[i] <= s[k]
    ensures IsMinHeap(s[..n])
  {
  }

  /** bubbleDown(h, N): given that h[0..N) is a min-heap except possibly at the
      root, moves the root down, always towards the smaller child, until it is
      no larger than its children; h[0..N) is then a min-heap holding the same
      elements. The loop handles nodes with two children; the final test
      handles a node whose only child is a left one. */
  method BubbleDown(h: array<int>, n: nat)
    requires n <= h.Length
    requires forall k :: 0 < k < n && Parent(k) != 0 ==> h[Parent(k)] <= h[k]
    modifies h
    ensures IsMinHeap(h[..n])
    ensures multiset(h[..n]) == multiset(old(h[..n]))
    ensures h[n..] == old(h[n..])
  {
    var i := 0;
    var flag := true;
    while Right(i) < n && flag
      invariant i <= n
      invariant OrderedBut(h[..], n, i)
      invariant !flag ==> forall k :: 0 < k < n && Parent(k) == i ==> h[i] <= h[k]
      invariant multiset(h[..]) == multiset(old(h[..]))
      invariant h[n..] == old(h[n..])
      decreases n - i, if flag then 1 else 0
    {
      var smaller := if h[Left(i)] < h[Right(i)] then Left(i) else Right(i);
      if h[i] > h[smaller] {
        ghost var before := h[..];
        forall k | 0 < k < n && Parent(k) == i ensures before[smaller] <= before[k] {
          ChildOfParent(k);
        }
        Swap(h, i, smaller);
        assert h[..] == before[i := before[smaller]][smaller := before[i]];
        SwapDown(before, n, i, smaller);
        i := smaller;
      } else {
        forall k | 0 < k < n && Parent(k) == i ensures h[i] <= h[k] {
          ChildOfParent(k);
        }
        flag := false;
      }
    }
    if Left(i) < n && h[Left(i)] < h[i] {
      ghost var before := h[..];
      forall k | 0 < k < n && Parent(k) == i ensures k == Left(i) {
        ChildOfParent(k);
      }
      Swap(h, i, Left(i));
      assert h[..] == before[i := before[Left(i)]][Left(i) := before[i]];
      SwapDown(before, n, i, Left(i));
      i := Left(i);
    } else {
      forall k | 0 < k < n && Parent(k) == i ensures h[i] <= h[k] {
        ChildOfParent(k);
      }
    }
    SettledAt(h[..], n, i);
    SamePrefixMultiset(h[..], old(h[..]), n);
  }

  // ---------------------------------------------------------------------------
  // The heap record
  // ---------------------------------------------------------------------------

  /** The Heap struct: capacity `size`, element count `used`, storage `values`. */
  class Heap {
    var size: nat
    var used: nat
    var values: array<int>

    /** The storage has `size` cells, the first `used` of which hold a
        min-heap; the capacity is positive, so doubling it makes room. */
    ghost predicate Valid()
      reads this, values
    {
      0 < size == values.Length && used <= size && IsMinHeap(values[..used])
    }

    /** The elements currently in the heap. */
    ghost function Elements(): multiset<int>
      reads this, values
      requires Valid()
    {
      multiset(values[..used])
    }

    /** The realloc step of insertHeap: the storage is replaced by a fresh
        array of twice the capacity that starts with the same elements. */
    method Grow()
      requires Valid()
      modifies this
      ensures Valid() && fresh(values)
      ensures size == 2 * old(size) && used == old(used)
      ensures values[..used] == old(values[..used])
    {
      var bigger := new int[2 * size];
      for k := 0 to size
        modifies bigger
        invariant bigger[..k] == values[..k]
      {
        bigger[k] := values[k];
      }
      assert bigger[..used] == values[..used];
      values := bigger;
      size := 2 * size;
    }

    /** insertHeap(h, x): doubles the capacity when the heap is full, appends x
        and bubbles it up; always returns 1. */
    method Insert(x: int) returns (r: int)
      requires Valid()
      modifies this, values
      ensures Valid()
      ensures r == 1
      ensures used == old(used) + 1
      ensures Elements() == old(Elements()) + multiset{x}
      ensures size == if old(used) == old(size) then 2 * old(size) else old(size)
      ensures old(used) < old(size) ==> values == old(values)
      ensures old(used) == old(size) ==> fresh(values)
    {
      if used == size {
        Grow();
      }
      ghost var before := values[..used];
      assert multiset(before) == old(Elements());
      values[used] := x;
      used := used + 1;
      assert values[..used - 1] == before;
      assert values[..used] == before + [x];
      BubbleUp(values, used - 1);
      r := 1;
    }

    /** extractMin(h, x): on an empty heap returns 0 and changes nothing (the
        caller's *x, given here as x0, is returned as it was). Otherwise it
        returns 1 with x the old root, which is the minimum, moves the last
        element to the root and bubbles it down. */
    method ExtractMin(x0: int) returns (r: int, x: int)
      requires Valid()
      modifies this, values
      ensures Valid()
      ensures size == old(size) && values == old(values)
      ensures r == (if old(used) > 0 then 1 else 0)
      ensures old(used) == 0 ==> x == x0 && used == 0 && unchanged(values)
      ensures old(used) > 0 ==> && x == old(values[0])
                                && (forall y :: y in old(Elements()) ==> x <= y)
                                && used == old(used) - 1
                                && Elements() == old(Elements()) - multiset{x}
    {
      if used > 0 {
        ghost var s := values[..used];
        RootIsMinimum(s);
        assert forall y :: y in multiset(s) ==> y in s;
        x := values[0];
        values[0] := values[used - 1];
        used := used - 1;
        assert values[..used] == s[0 := s[used]][..used];
        LastToRoot(s);
        BubbleDown(values, used);
        r := 1;
      } else {
        x := x0;
        r := 0;
      }
    }
  }
}
