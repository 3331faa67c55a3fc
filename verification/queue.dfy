/**
 * Priority_Queue of queue.h: a binary heap kept in a vector-like
 * container together with its comparator. The front of the container is
 * the element nothing outranks; push sifts the new last element up and
 * pop moves the last element to the front and sifts it down.
 */
module PriorityQueue {
  import opened Heap

  /** The container c and the comparator comp. */
  datatype PQ = PQ(c: seq<int>, comp: Cmp)

  /** The heap property over the whole container. */
  predicate Valid(q: PQ)
  {
    IsHeap(q.comp, q.c)
  }

  /**
   * While sifting up from x: every parent link holds except the one into
   * x, and x's parent already outranks x's children.
   */
  predicate UpInv(c: Cmp, s: seq<int>, x: nat)
  {
    x < |s| &&
    (forall j :: 0 < j < |s| && j != x ==> !Comp(c, s[Parent(j)], s[j])) &&
    (x > 0 ==> forall j :: 0 < j < |s| && Parent(j) == x ==> !Comp(c, s[Parent(x)], s[j]))
  }

  /** A sift-up step that swaps x with its parent moves the fault up to the parent. */
  lemma UpSwap(c: Cmp, s: seq<int>, x: nat)
    requires UpInv(c, s, x) && x > 0 && Comp(c, s[Parent(x)], s[x])
    ensures UpInv(c, SwapAt(s, Parent(x), x), Parent(x))
  {
    var p := Parent(x);
    var t := SwapAt(s, p, x);
    forall j | 0 < j < |s| && j != p
      ensures !Comp(c, t[Parent(j)], t[j])
    {
      if j == x {
      } else if Parent(j) == x {
        assert t[j] == s[j];
      } else if Parent(j) == p {
        assert t[j] == s[j];
        assert !Comp(c, s[p], s[j]);
      }
    }
    if p > 0 {
      forall j | 0 < j < |s| && Parent(j) == p
        ensures !Comp(c, t[Parent(p)], t[j])
      {
        assert !Comp(c, s[Parent(p)], s[p]);
        if j != x {
          assert !Comp(c, s[p], s[j]);
        }
      }
    }
  }

  /**
   * sift_up: while x has a parent that compares before it, swap the two
   * and continue from the parent. Given a heap with only the link into x
   * broken, the result is a heap and a permutation of the input.
   */
  method SiftUp(c: Cmp, s: seq<int>, x0: nat) returns (r: seq<int>)
    requires UpInv(c, s, x0)
    ensures IsHeap(c, r) && multiset(r) == multiset(s) && |r| == |s|
  {
    r := s;
    var x := x0;
    while x > 0
      invariant UpInv(c, r, x)
      invariant multiset(r) == multiset(s) && |r| == |s|
      decreases x
    {
      var p := Parent(x);
      if Comp(c, r[p], r[x]) {
        UpSwap(c, r, x);
        r := SwapAt(r, p, x);
        x := p;
      } else {
        break;
      }
    }
  }

  /**
   * sift_down: while index is inside, swap it with its larger child when
   * that child outranks it, and stop otherwise. Given a heap whose only
   * broken links are those out of x, the result is a heap and a
   * permutation of the input.
   */
  method SiftDown(c: Cmp, s: seq<int>, x0: nat) returns (r: seq<int>)
    requires x0 < |s| ==> SiftInv(c, s, |s|, 0, x0)
    requires x0 >= |s| ==> |s| == 0
    ensures IsHeap(c, r) && multiset(r) == multiset(s) && |r| == |s|
  {
    r := s;
    var n := |s|;
    var x := x0;
    while x < n
      invariant |r| == n && multiset(r) == multiset(s)
      invariant x < n ==> SiftInv(c, r, n, 0, x)
      invariant x >= n ==> n == 0
      decreases n - x
    {
      var m := Largest(c, r, n, x);
      if m != x {
        SiftSwap(c, r, n, 0, x);
        r := SwapAt(r, x, m);
        x := m;
      } else {
        SiftStop(c, r, n, 0, x);
        break;
      }
    }
  }

  /** A heap with a value appended is a heap except for the link into the new slot. */
  lemma AppendUp(c: Cmp, s: seq<int>, v: int)
    requires IsHeap(c, s)
    ensures UpInv(c, s + [v], |s|)
  {
    var t := s + [v];
    forall j | 0 < j < |t| && j != |s|
      ensures !Comp(c, t[Parent(j)], t[j])
    {
      assert t[Parent(j)] == s[Parent(j)] && t[j] == s[j];
    }
  }

  /**
   * push (and emplace, which constructs the value in place): append,
   * then sift the new element up. The heap holds again, the size grows by
   * one and exactly the pushed value is added.
   */
  method Push(q: PQ, v: int) returns (r: PQ)
    requires Valid(q)
    ensures Valid(r) && r.comp == q.comp
    ensures Size(r) == Size(q) + 1
    ensures multiset(r.c) == multiset(q.c) + multiset{v}
  {
    AppendUp(q.comp, q.c, v);
    var t := SiftUp(q.comp, q.c + [v], |q.c|);
    r := PQ(t, q.comp);
  }

  /** Moving the last element to the front of a heap leaves only the links out of the front broken. */
  lemma PopDown(c: Cmp, s: seq<int>)
    requires IsHeap(c, s) && |s| > 1
    ensures var t := SwapAt(s, 0, |s| - 1)[..|s| - 1];
      SiftInv(c, t, |t|, 0, 0) &&
      multiset(t) == multiset(s) - multiset{s[0]}
  {
    var u := SwapAt(s, 0, |s| - 1);
    var t := u[..|s| - 1];
    assert u == t + [s[0]];
    assert multiset(u) == multiset(t) + multiset{s[0]};
    forall j | 0 < j < |t| && Parent(j) != 0
      ensures !Comp(c, t[Parent(j)], t[j])
    {
      assert t[Parent(j)] == s[Parent(j)] && t[j] == s[j];
    }
  }

  /**
   * pop: nothing on an empty queue; otherwise swap the front with the
   * back, drop the back and sift the new front down. Exactly one copy of
   * the former top leaves and the heap holds again.
   */
  method Pop(q: PQ) returns (r: PQ)
    requires Valid(q)
    ensures Valid(r) && r.comp == q.comp
    ensures Empty(q) ==> r == q
    ensures !Empty(q) ==> Size(r) == Size(q) - 1
    ensures !Empty(q) ==> multiset(r.c) == multiset(q.c) - multiset{Top(q)}
  {
    if Empty(q) {
      return q;
    }
    PopPrep(q.comp, q.c);
    var t := SwapAt(q.c, 0, |q.c| - 1)[..|q.c| - 1];
    var d := SiftDown(q.comp, t, 0);
    r := PQ(d, q.comp);
  }

  /** What pop hands to the sift-down: the heap without its front, broken only at the root. */
  lemma PopPrep(c: Cmp, s: seq<int>)
    requires IsHeap(c, s) && |s| > 0
    ensures var t := SwapAt(s, 0, |s| - 1)[..|s| - 1];
      |t| == |s| - 1 && (0 < |t| ==> SiftInv(c, t, |t|, 0, 0)) &&
      multiset(t) == multiset(s) - multiset{s[0]}
  {
    var t := SwapAt(s, 0, |s| - 1)[..|s| - 1];
    if |s| == 1 {
      assert t == [];
    } else {
      PopDown(c, s);
    }
  }

  /**
   * top: the front of the container. On a heap nothing in the queue
   * compares after it (it is a maximum under std::less).
   */
  function Top(q: PQ): (t: int)
    requires !Empty(q)
    ensures t in q.c
    ensures Valid(q) ==> forall j :: 0 <= j < |q.c| ==> !Comp(q.comp, t, q.c[j])
  {
    TopFirst(q);
    q.c[0]
  }

  lemma TopFirst(q: PQ)
    requires |q.c| > 0
    ensures Valid(q) ==> forall j :: 0 <= j < |q.c| ==> !Comp(q.comp, q.c[0], q.c[j])
  {
    if Valid(q) {
      forall j | 0 <= j < |q.c| ensures !Comp(q.comp, q.c[0], q.c[j]) {
        RootFirst(q.comp, q.c, |q.c|, j);
      }
    }
  }

  /** size: the number of elements in the container. */
  function Size(q: PQ): (n: nat)
    ensures n == |multiset(q.c)|
  {
    |q.c|
  }

  /** empty: the container holds nothing. */
  function Empty(q: PQ): (b: bool)
    ensures b <==> multiset(q.c) == multiset{}
  {
    |q.c| == 0
  }

  /** swap: exchange both the containers and the comparators. */
  function Swap(a: PQ, b: PQ): (r: (PQ, PQ))
    ensures r.0.c == b.c && r.0.comp == b.comp
    ensures r.1.c == a.c && r.1.comp == a.comp
  {
    (PQ(b.c, b.comp), PQ(a.c, a.comp))
  }

  /** Swapping two queues twice gives both back, heaps and all. */
  lemma SwapInvolutive(a: PQ, b: PQ)
    ensures Swap(Swap(a, b).0, Swap(a, b).1) == (a, b)
    ensures Valid(a) && Valid(b) ==> Valid(Swap(a, b).0) && Valid(Swap(a, b).1)
  {
  }
}
