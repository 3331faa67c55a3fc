/**
 * The binary heap shared by heapify/heapSort of algorithm.h and the
 * sift_up/sift_down of Priority_Queue in queue.h: the children of slot i
 * are 2i+1 and 2i+2, a slot's parent is (j-1)/2, and the heap property is
 * that no parent compares before its child.
 */
module Heap {
  /**
   * The comparator: std::less (a max-heap, ascending sort) or
   * std::greater (a min-heap, descending sort), on int elements.
   */
  datatype Cmp = Less | Greater

  /** comp(a, b). */
  predicate Comp(c: Cmp, a: int, b: int)
  {
    if c == Less then a < b else b < a
  }

  function Parent(j: nat): (p: nat)
    requires j > 0
    ensures p < j && (j == 2 * p + 1 || j == 2 * p + 2)
  {
    (j - 1) / 2
  }

  /**
   * Heap order on the first n slots, for every parent link whose parent
   * sits at or after slot lo (lo == 0 is the whole heap).
   */
  predicate HeapFrom(c: Cmp, s: seq<int>, n: nat, lo: nat)
    requires n <= |s|
  {
    forall j :: 0 < j < n && lo <= Parent(j) ==> !Comp(c, s[Parent(j)], s[j])
  }

  /** The whole sequence is a heap. */
  predicate IsHeap(c: Cmp, s: seq<int>)
  {
    HeapFrom(c, s, |s|, 0)
  }

  /**
   * While sifting down from x within the heap rooted at lo: every link
   * from lo on holds except those out of x, and x's parent (if inside)
   * already outranks x's children.
   */
  predicate SiftInv(c: Cmp, s: seq<int>, n: nat, lo: nat, x: nat)
    requires n <= |s|
  {
    lo <= x < n &&
    (lo < x ==> lo <= Parent(x)) &&
    (forall j :: 0 < j < n && lo <= Parent(j) && Parent(j) != x ==> !Comp(c, s[Parent(j)], s[j])) &&
    (lo < x ==> forall j :: 0 < j < n && Parent(j) == x ==> !Comp(c, s[Parent(x)], s[j]))
  }

  /** Exchange two slots. */
  function SwapAt(s: seq<int>, i: nat, j: nat): (r: seq<int>)
    requires i < |s| && j < |s|
    ensures |r| == |s| && r[i] == s[j] && r[j] == s[i]
    ensures forall k :: 0 <= k < |s| && k != i && k != j ==> r[k] == s[k]
    ensures multiset(r) == multiset(s)
  {
    s[i := s[j]][j := s[i]]
  }

  /**
   * The child a sift-down step looks at: the larger (under comp) of x and
   * its children inside the first n slots, the left child winning ties
   * with x and the right child winning only when strictly larger.
   */
  function Largest(c: Cmp, s: seq<int>, n: nat, x: nat): (m: nat)
    requires x < n <= |s|
    ensures m == x || (m < n && m > 0 && Parent(m) == x)
    ensures !Comp(c, s[m], s[x])
    ensures 2 * x + 1 < n ==> !Comp(c, s[m], s[2 * x + 1])
    ensures 2 * x + 2 < n ==> !Comp(c, s[m], s[2 * x + 2])
  {
    var l, r := 2 * x + 1, 2 * x + 2;
    var m1 := if l < n && Comp(c, s[x], s[l]) then l else x;
    if r < n && Comp(c, s[m1], s[r]) then r else m1
  }

  /** A sift-down step that stops: x outranks its children, so the heap is whole from lo. */
  lemma SiftStop(c: Cmp, s: seq<int>, n: nat, lo: nat, x: nat)
    requires n <= |s| && SiftInv(c, s, n, lo, x) && Largest(c, s, n, x) == x
    ensures HeapFrom(c, s, n, lo)
  {
    forall j | 0 < j < n && lo <= Parent(j)
      ensures !Comp(c, s[Parent(j)], s[j])
    {
      if Parent(j) == x {
        assert j == 2 * x + 1 || j == 2 * x + 2;
      }
    }
  }

  /** A sift-down step that swaps x with its larger child moves the fault to that child. */
  lemma SiftSwap(c: Cmp, s: seq<int>, n: nat, lo: nat, x: nat)
    requires n <= |s| && SiftInv(c, s, n, lo, x)
    requires Largest(c, s, n, x) != x
    ensures var m := Largest(c, s, n, x);
      SiftInv(c, SwapAt(s, x, m), n, lo, m)
  {
    var m := Largest(c, s, n, x);
    var t := SwapAt(s, x, m);
    assert Comp(c, s[x], s[m]);
    forall j | 0 < j < n && lo <= Parent(j) && Parent(j) != m
      ensures !Comp(c, t[Parent(j)], t[j])
    {
      var p := Parent(j);
      if p == x {
        assert j == 2 * x + 1 || j == 2 * x + 2;
      } else if j == x {
        assert lo < x;
        assert !Comp(c, s[Parent(x)], s[m]);
      } else if p == m {
        assert false;
      }
    }
    forall j | 0 < j < n && Parent(j) == m
      ensures !Comp(c, t[Parent(m)], t[j])
    {
      assert j != x && j != m;
    }
  }

  /**
   * The root of a heap outranks every element: nothing compares after it
   * (a max-heap's front is a maximum under std::less).
   */
  lemma {:induction false} RootFirst(c: Cmp, s: seq<int>, n: nat, j: nat)
    requires n <= |s| && HeapFrom(c, s, n, 0) && j < n
    ensures !Comp(c, s[0], s[j])
    decreases j
  {
    if j > 0 {
      RootFirst(c, s, n, Parent(j));
    }
  }
}
