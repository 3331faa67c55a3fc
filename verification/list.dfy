/**
 * List of list.h: a doubly linked list between a head and a tail sentinel
 * with a separately kept size_ counter. The chain of nodes is the
 * sequence items; size_ is kept as its own field because the source
 * updates it by hand and does not always keep it equal to the number of
 * nodes. Iterators are positions: At(i) is the i-th node (At(|items|) is
 * the tail sentinel, end()), Head is the head sentinel, Null a null
 * iterator. Ordering comparisons (<=) go through a key of each element.
 */
module LinkedList {
  datatype List<T> = List(items: seq<T>, size: nat)

  datatype Pos = At(i: nat) | Head | Null

  /** size_ counts exactly the nodes on the chain. */
  predicate Valid<T>(l: List<T>)
  {
    l.size == |l.items|
  }

  /** empty: decided by size_, not by the chain. */
  predicate Empty<T>(l: List<T>)
  {
    l.size == 0
  }

  /** push_back: link a new node before the tail sentinel. */
  function PushBack<T>(l: List<T>, v: T): (r: List<T>)
    ensures Valid(l) ==> Valid(r)
    ensures r.size == l.size + 1
    ensures |r.items| == |l.items| + 1 && r.items[|l.items|] == v && r.items[..|l.items|] == l.items
  {
    List(l.items + [v], l.size + 1)
  }

  /** push_front: link a new node after the head sentinel (either branch of the empty test links the same way). */
  function PushFront<T>(l: List<T>, v: T): (r: List<T>)
    ensures Valid(l) ==> Valid(r)
    ensures r.size == l.size + 1
    ensures |r.items| == |l.items| + 1 && r.items[0] == v && r.items[1..] == l.items
  {
    List([v] + l.items, l.size + 1)
  }

  /** pop_back: nothing when empty, otherwise unlink the last node. */
  function PopBack<T>(l: List<T>): (r: List<T>)
    requires Valid(l)
    ensures Valid(r)
    ensures Empty(l) ==> r == l
    ensures !Empty(l) ==> r.items + [l.items[|l.items| - 1]] == l.items
  {
    if Empty(l) then l else List(l.items[..|l.items| - 1], l.size - 1)
  }

  /** pop_front: nothing when empty, otherwise unlink the first node. */
  function PopFront<T>(l: List<T>): (r: List<T>)
    requires Valid(l)
    ensures Valid(r)
    ensures Empty(l) ==> r == l
    ensures !Empty(l) ==> [l.items[0]] + r.items == l.items
  {
    if Empty(l) then l else List(l.items[1..], l.size - 1)
  }

  /** Popping what was just pushed gives the list back, at either end. */
  lemma PushPop<T>(l: List<T>, v: T)
    requires Valid(l)
    ensures PopBack(PushBack(l, v)) == l
    ensures PopFront(PushFront(l, v)) == l
  {
    assert (l.items + [v])[..|l.items|] == l.items;
  }

  /**
   * insert(Where, Val): link a new node just before Where and return an
   * iterator to it. Where may be any node or end().
   */
  function Insert<T>(l: List<T>, p: nat, v: T): (r: (List<T>, Pos))
    requires p <= |l.items|
    ensures Valid(l) ==> Valid(r.0)
    ensures r.0.size == l.size + 1 && r.1 == At(p)
    ensures |r.0.items| == |l.items| + 1 && r.0.items[p] == v
    ensures r.0.items[..p] == l.items[..p] && r.0.items[p + 1..] == l.items[p..]
  {
    (List(l.items[..p] + [v] + l.items[p..], l.size + 1), At(p))
  }

  /**
   * erase(Where) as written: a null iterator or either sentinel changes
   * nothing and gives a null iterator; the last node is removed by
   * pop_back and also gives a null iterator; the first by pop_front,
   * giving the new first node; any other node is unlinked, giving the
   * node after it.
   */
  function EraseAsWritten<T>(l: List<T>, w: Pos): (r: (List<T>, Pos))
    requires Valid(l) && (w.At? ==> w.i <= |l.items|)
    ensures Valid(r.0)
    ensures w.At? && w.i < |l.items| ==> r.0.items == l.items[..w.i] + l.items[w.i + 1..]
    ensures !(w.At? && w.i < |l.items|) ==> r == (l, Null)
    ensures w.At? && w.i + 1 == |l.items| ==> r.1 == Null
  {
    if !w.At? || w.i == |l.items| then (l, Null)
    else if w.i == |l.items| - 1 then (PopBack(l), Null)
    else if w.i == 0 then (PopFront(l), At(0))
    else (List(l.items[..w.i] + l.items[w.i + 1..], l.size - 1), At(w.i))
  }

  /** Erasing the only node as written yields a null iterator where end() is due. */
  lemma EraseAsWrittenLosesEnd()
    ensures EraseAsWritten(List([7], 1), At(0)) == (List([], 0), Null)
    ensures Null != At(|EraseAsWritten(List([7], 1), At(0)).0.items|)
  {
  }

  /**
   * erase(Where), with the last node handled like every other: a real
   * node leaves and the iterator returned is at the node that followed
   * it (end() after the last one); anything else changes nothing.
   */
  function Erase<T>(l: List<T>, w: Pos): (r: (List<T>, Pos))
    requires Valid(l) && (w.At? ==> w.i <= |l.items|)
    ensures Valid(r.0)
    ensures w.At? && w.i < |l.items| ==>
      r.0.items == l.items[..w.i] + l.items[w.i + 1..] && r.1 == At(w.i)
    ensures !(w.At? && w.i < |l.items|) ==> r == (l, Null)
    ensures r.0.items == EraseAsWritten(l, w).0.items
  {
    if !w.At? || w.i == |l.items| then (l, Null)
    else (EraseAsWritten(l, w).0, At(w.i))
  }

  /** Erasing the node just inserted gives the list back. */
  lemma EraseInsert<T>(l: List<T>, p: nat, v: T)
    requires Valid(l) && p <= |l.items|
    ensures Erase(Insert(l, p, v).0, At(p)).0 == l
  {
    var r := Insert(l, p, v).0;
    assert r.items[..p] + r.items[p + 1..] == l.items[..p] + l.items[p..];
    assert l.items[..p] + l.items[p..] == l.items;
  }

  /**
   * erase(first, last): step first forward and erase the node it left,
   * until it meets last; the nodes in [first, last) go and last is
   * returned (now at first's index).
   */
  method EraseRange<T>(l: List<T>, first: nat, last: nat) returns (r: List<T>, it: Pos)
    requires Valid(l) && first <= last <= |l.items|
    ensures Valid(r) && r.items == l.items[..first] + l.items[last..]
    ensures r.size == l.size - (last - first) && it == At(first)
  {
    r := l;
    var k := first;
    while k != last
      invariant first <= k <= last
      invariant Valid(r) && r.items == l.items[..first] + l.items[k..]
      invariant r.size == l.size - (k - first)
    {
      var res := Erase(r, At(first));
      assert r.items[first] == l.items[k];
      assert l.items[k..][1..] == l.items[k + 1..];
      r := res.0;
      k := k + 1;
    }
    it := At(first);
  }

  /** The list in reverse: element i comes from the mirrored position. */
  function Reversed<T>(s: seq<T>): (r: seq<T>)
    ensures |r| == |s|
    ensures forall i :: 0 <= i < |s| ==> r[i] == s[|s| - 1 - i]
  {
    if |s| == 0 then [] else Reversed(s[1..]) + [s[0]]
  }

  /**
   * reverse: swap prev and next in every node, sentinels included, then
   * swap the sentinels; the chain reads backwards and size_ is unchanged.
   */
  function Reverse<T>(l: List<T>): (r: List<T>)
    ensures r.size == l.size && Reversed(r.items) == l.items
    ensures multiset(r.items) == multiset(l.items)
  {
    ReversedInvolutive(l.items);
    ReversedMultiset(l.items);
    List(Reversed(l.items), l.size)
  }

  /** Reversing twice gives the original sequence. */
  lemma ReversedInvolutive<T>(s: seq<T>)
    ensures Reversed(Reversed(s)) == s
  {
  }

  lemma {:induction false} ReversedMultiset<T>(s: seq<T>)
    ensures multiset(Reversed(s)) == multiset(s)
  {
    if |s| > 0 {
      ReversedMultiset(s[1..]);
      assert s == [s[0]] + s[1..];
    }
  }

  /**
   * splice(Where, Source): nothing when Source is empty; otherwise all of
   * Source's nodes are relinked, in order, before Where and the counts
   * move with them.
   */
  function Splice<T>(l: List<T>, p: nat, src: List<T>): (r: (List<T>, List<T>))
    requires Valid(l) && Valid(src) && p <= |l.items|
    ensures Valid(r.0) && Valid(r.1)
    ensures Empty(src) ==> r == (l, src)
    ensures r.0.items == l.items[..p] + src.items + l.items[p..]
    ensures r.1.items == [] && r.0.size == l.size + src.size
  {
    if Empty(src) then (l, src)
    else (List(l.items[..p] + src.items + l.items[p..], l.size + src.size), List([], 0))
  }

  /** Splicing conserves the nodes of the two lists. */
  lemma SpliceConserves<T>(l: List<T>, p: nat, src: List<T>)
    requires Valid(l) && Valid(src) && p <= |l.items|
    ensures var r := Splice(l, p, src);
      multiset(r.0.items) + multiset(r.1.items) == multiset(l.items) + multiset(src.items)
  {
    assert l.items == l.items[..p] + l.items[p..];
  }

  /**
   * splice(Where, Source, Iter): nothing when Iter is Source's end();
   * otherwise that one node moves from Source to just before Where.
   */
  function SpliceOne<T>(l: List<T>, p: nat, src: List<T>, i: nat): (r: (List<T>, List<T>))
    requires Valid(l) && Valid(src) && p <= |l.items| && i <= |src.items|
    ensures Valid(r.0) && Valid(r.1)
    ensures i == |src.items| ==> r == (l, src)
    ensures i < |src.items| ==>
      r.0.items == l.items[..p] + [src.items[i]] + l.items[p..] &&
      r.1.items == src.items[..i] + src.items[i + 1..]
  {
    if i == |src.items| then (l, src)
    else
      (List(l.items[..p] + [src.items[i]] + l.items[p..], l.size + 1),
       List(src.items[..i] + src.items[i + 1..], src.size - 1))
  }

  /** Moving one node conserves the nodes of the two lists. */
  lemma SpliceOneConserves<T>(l: List<T>, p: nat, src: List<T>, i: nat)
    requires Valid(l) && Valid(src) && p <= |l.items| && i <= |src.items|
    ensures var r := SpliceOne(l, p, src, i);
      multiset(r.0.items) + multiset(r.1.items) == multiset(l.items) + multiset(src.items)
  {
    assert l.items == l.items[..p] + l.items[p..];
    if i < |src.items| {
      assert src.items == src.items[..i] + [src.items[i]] + src.items[i + 1..];
    }
  }

  /**
   * resize(n, val): pop_back while size_ exceeds n, then push_back val
   * while it falls short (resize(n) fills with T()).
   */
  method Resize<T>(l: List<T>, n: nat, fill: T) returns (r: List<T>)
    requires Valid(l)
    ensures Valid(r) && r.size == n
    ensures forall i :: 0 <= i < n && i < |l.items| ==> r.items[i] == l.items[i]
    ensures forall i :: |l.items| <= i < n ==> r.items[i] == fill
  {
    r := l;
    while r.size > n
      invariant Valid(r) && r.size <= l.size
      invariant n <= l.size ==> n <= r.size
      invariant n > l.size ==> r == l
      invariant r.items == l.items[..r.size]
      decreases r.size
    {
      r := PopBack(r);
    }
    while r.size < n
      invariant Valid(r) && r.size <= n
      invariant forall i :: 0 <= i < r.size && i < |l.items| ==> r.items[i] == l.items[i]
      invariant forall i :: |l.items| <= i < r.size ==> r.items[i] == fill
      decreases n - r.size
    {
      r := PushBack(r, fill);
    }
  }

  /** Non-decreasing by key: the order merge and sort produce. */
  predicate Sorted<T>(key: T -> int, s: seq<T>)
  {
    forall i, j :: 0 <= i < j < |s| ==> key(s[i]) <= key(s[j])
  }

  /** The elements whose key is k, in their order: equal keys keep this order in a stable sort. */
  function Filter<T>(key: T -> int, s: seq<T>, k: int): (r: seq<T>)
    ensures |r| <= |s|
    ensures forall x :: x in r ==> x in s && key(x) == k
  {
    if |s| == 0 then []
    else if key(s[0]) == k then [s[0]] + Filter(key, s[1..], k)
    else Filter(key, s[1..], k)
  }

  lemma {:induction false} FilterAppend<T>(key: T -> int, a: seq<T>, b: seq<T>, k: int)
    ensures Filter(key, a + b, k) == Filter(key, a, k) + Filter(key, b, k)
  {
    if |a| > 0 {
      assert (a + b)[1..] == a[1..] + b;
      FilterAppend(key, a[1..], b, k);
    } else {
      assert a + b == b;
    }
  }

  /** No element has key k, so none is selected. */
  lemma {:induction false} FilterNone<T>(key: T -> int, s: seq<T>, k: int)
    requires forall i :: 0 <= i < |s| ==> key(s[i]) != k
    ensures Filter(key, s, k) == []
  {
    if |s| > 0 {
      FilterNone(key, s[1..], k);
    }
  }

  /**
   * The two-way merge of merge and mergeToTemp: while both inputs
   * remain, take this side's front when its key is <= the other's, else
   * the other's front; then the rest of whichever remains.
   */
  function Merge<T>(key: T -> int, a: seq<T>, b: seq<T>): (r: seq<T>)
    ensures |r| == |a| + |b|
    ensures multiset(r) == multiset(a) + multiset(b)
    decreases |a| + |b|
  {
    if |a| == 0 then b
    else if |b| == 0 then a
    else if key(a[0]) <= key(b[0]) then
      assert a == [a[0]] + a[1..];
      [a[0]] + Merge(key, a[1..], b)
    else
      assert b == [b[0]] + b[1..];
      [b[0]] + Merge(key, a, b[1..])
  }

  lemma SortedTail<T>(key: T -> int, s: seq<T>)
    requires Sorted(key, s) && |s| > 0
    ensures Sorted(key, s[1..]) && forall x :: x in s ==> key(s[0]) <= key(x)
  {
  }

  lemma SortedCons<T>(key: T -> int, x: T, t: seq<T>)
    requires Sorted(key, t) && forall y :: y in t ==> key(x) <= key(y)
    ensures Sorted(key, [x] + t)
  {
    var u := [x] + t;
    forall i, j | 0 <= i < j < |u| ensures key(u[i]) <= key(u[j]) {
      assert u[j] == t[j - 1];
      if i > 0 {
        assert u[i] == t[i - 1];
      }
    }
  }

  /** Merging two sorted sequences gives a sorted sequence. */
  lemma {:induction false} MergeSorted<T>(key: T -> int, a: seq<T>, b: seq<T>)
    requires Sorted(key, a) && Sorted(key, b)
    ensures Sorted(key, Merge(key, a, b))
    decreases |a| + |b|
  {
    if |a| > 0 && |b| > 0 {
      SortedTail(key, a);
      SortedTail(key, b);
      if key(a[0]) <= key(b[0]) {
        var t := Merge(key, a[1..], b);
        MergeSorted(key, a[1..], b);
        forall y | y in t ensures key(a[0]) <= key(y) {
          assert y in multiset(t);
        }
        SortedCons(key, a[0], t);
      } else {
        var t := Merge(key, a, b[1..]);
        MergeSorted(key, a, b[1..]);
        forall y | y in t ensures key(b[0]) <= key(y) {
          assert y in multiset(t);
        }
        SortedCons(key, b[0], t);
      }
    }
  }

  /**
   * The merge is stable: among equal keys, this side's elements come
   * first and each side keeps its own order.
   */
  lemma {:induction false} MergeStable<T>(key: T -> int, a: seq<T>, b: seq<T>, k: int)
    requires Sorted(key, a)
    ensures Filter(key, Merge(key, a, b), k) == Filter(key, a, k) + Filter(key, b, k)
    decreases |a| + |b|
  {
    if |a| == 0 {
    } else if |b| == 0 {
      assert Filter(key, b, k) == [];
    } else if key(a[0]) <= key(b[0]) {
      SortedTail(key, a);
      MergeStable(key, a[1..], b, k);
      assert [a[0]] + Merge(key, a[1..], b) == Merge(key, a, b);
    } else {
      MergeStable(key, a, b[1..], k);
      assert [b[0]] + Merge(key, a, b[1..]) == Merge(key, a, b);
      if key(b[0]) == k {
        SortedTail(key, a);
        FilterNone(key, a, k);
      }
    }
  }

  /**
   * merge(other): nothing when other is empty; otherwise this list
   * becomes the merge of the two, other ends empty and the counts add up
   * (when this list is empty it takes over other's nodes, which is the
   * same merge).
   */
  function ListMerge<T>(key: T -> int, l: List<T>, other: List<T>): (r: (List<T>, List<T>))
    requires Valid(l) && Valid(other)
    ensures Valid(r.0) && Valid(r.1)
    ensures Empty(other) ==> r == (l, other)
    ensures r.1.items == [] && r.0.size == l.size + other.size
    ensures multiset(r.0.items) == multiset(l.items) + multiset(other.items)
    ensures Sorted(key, l.items) && Sorted(key, other.items) ==> Sorted(key, r.0.items)
    ensures Sorted(key, l.items) ==>
      forall k :: Filter(key, r.0.items, k) == Filter(key, l.items, k) + Filter(key, other.items, k)
  {
    if Empty(other) then
      assert other.items == [];
      assert forall k :: Filter(key, other.items, k) == [];
      (l, other)
    else
      MergeFacts(key, l.items, other.items);
      (List(Merge(key, l.items, other.items), l.size + other.size), List([], 0))
  }

  lemma MergeFacts<T>(key: T -> int, a: seq<T>, b: seq<T>)
    ensures Sorted(key, a) && Sorted(key, b) ==> Sorted(key, Merge(key, a, b))
    ensures Sorted(key, a) ==>
      forall k :: Filter(key, Merge(key, a, b), k) == Filter(key, a, k) + Filter(key, b, k)
  {
    if Sorted(key, a) {
      forall k ensures Filter(key, Merge(key, a, b), k) == Filter(key, a, k) + Filter(key, b, k) {
        MergeStable(key, a, b, k);
      }
      if Sorted(key, b) {
        MergeSorted(key, a, b);
      }
    }
  }

  /** The smaller of two naturals: how far split advances before the tail. */
  function Min(a: nat, b: nat): (m: nat)
    ensures m <= a && m <= b && (m == a || m == b)
  {
    if a <= b then a else b
  }

  /**
   * One pass of sort: split off a left block and a right block of up to
   * w nodes each (split stops at the tail), append their merge
   * (mergeToTemp) to the temporary list, and continue after them.
   */
  function Pass<T>(key: T -> int, s: seq<T>, w: nat): (r: seq<T>)
    requires w > 0
    ensures |r| == |s| && multiset(r) == multiset(s)
    decreases |s|
  {
    if |s| == 0 then []
    else
      var left := s[..Min(w, |s|)];
      var rest := s[Min(w, |s|)..];
      var right := rest[..Min(w, |rest|)];
      var next := rest[Min(w, |rest|)..];
      assert s == left + right + next;
      Merge(key, left, right) + Pass(key, next, w)
  }

  /** Every block of w consecutive elements, from the front, is sorted. */
  predicate RunsSorted<T>(key: T -> int, s: seq<T>, w: nat)
    requires w > 0
    decreases |s|
  {
    if |s| <= w then Sorted(key, s)
    else Sorted(key, s[..w]) && RunsSorted(key, s[w..], w)
  }

  lemma {:induction false} RunsSortedOne<T>(key: T -> int, s: seq<T>)
    ensures RunsSorted(key, s, 1)
    decreases |s|
  {
    if |s| > 1 {
      RunsSortedOne(key, s[1..]);
    }
  }

  /** A pass over at most one block leaves it sorted. */
  lemma PassSortsShort<T>(key: T -> int, s: seq<T>, w: nat)
    requires w > 0 && 0 < |s| <= w && RunsSorted(key, s, w)
    ensures RunsSorted(key, Pass(key, s, w), 2 * w)
  {
    var rest := s[|s|..];
    assert rest == [] && s[..|s|] == s;
    assert Pass(key, s, w) == Merge(key, s, []) + Pass(key, [], w);
    MergeSorted(key, s, []);
  }

  /** A pass over two blocks, the second possibly short, merges them into one sorted run. */
  lemma PassSortsPair<T>(key: T -> int, s: seq<T>, w: nat)
    requires w > 0 && w < |s| <= 2 * w && RunsSorted(key, s, w)
    ensures RunsSorted(key, Pass(key, s, w), 2 * w)
  {
    var left := s[..w];
    var rest := s[w..];
    assert rest[..|rest|] == rest && rest[|rest|..] == [];
    assert Min(w, |rest|) == |rest|;
    assert Pass(key, s, w) == Merge(key, left, rest) + Pass(key, [], w);
    MergeSorted(key, left, rest);
  }

  /** With more than two blocks, a pass merges the first two and carries on after them. */
  lemma PassUnfold<T>(key: T -> int, s: seq<T>, w: nat)
    requires w > 0 && 2 * w < |s|
    ensures Pass(key, s, w) == Merge(key, s[..w], s[w..2 * w]) + Pass(key, s[2 * w..], w)
  {
    var rest := s[w..];
    assert Min(w, |s|) == w && Min(w, |rest|) == w;
    assert rest[..w] == s[w..2 * w] && rest[w..] == s[2 * w..];
  }

  /** A sorted block of exactly w followed by sorted blocks of w. */
  lemma RunsSortedPrepend<T>(key: T -> int, a: seq<T>, b: seq<T>, w: nat)
    requires w > 0 && |a| == w && 0 < |b| && Sorted(key, a) && RunsSorted(key, b, w)
    ensures RunsSorted(key, a + b, w)
  {
    assert (a + b)[..w] == a && (a + b)[w..] == b;
  }

  /** With more than two blocks, the first merged pair is followed by the pass over the rest. */
  lemma PassSortsLong<T>(key: T -> int, s: seq<T>, w: nat)
    requires w > 0 && 2 * w < |s| && Sorted(key, s[..w]) && Sorted(key, s[w..2 * w])
    requires RunsSorted(key, Pass(key, s[2 * w..], w), 2 * w)
    ensures RunsSorted(key, Pass(key, s, w), 2 * w)
  {
    PassUnfold(key, s, w);
    MergeSorted(key, s[..w], s[w..2 * w]);
    RunsSortedPrepend(key, Merge(key, s[..w], s[w..2 * w]), Pass(key, s[2 * w..], w), 2 * w);
  }

  /** A pass merges sorted blocks of w into sorted blocks of 2w. */
  lemma {:induction false} PassSorts<T>(key: T -> int, s: seq<T>, w: nat)
    requires w > 0 && RunsSorted(key, s, w)
    ensures RunsSorted(key, Pass(key, s, w), 2 * w)
    decreases |s|
  {
    if |s| == 0 {
    } else if |s| <= w {
      PassSortsShort(key, s, w);
    } else if |s| <= 2 * w {
      PassSortsPair(key, s, w);
    } else {
      assert s[w..][w..] == s[2 * w..] && s[w..][..w] == s[w..2 * w];
      PassSorts(key, s[2 * w..], w);
      PassSortsLong(key, s, w);
    }
  }

  /** A pass over sorted blocks is stable. */
  lemma {:induction false} PassStable<T>(key: T -> int, s: seq<T>, w: nat, k: int)
    requires w > 0 && RunsSorted(key, s, w)
    ensures Filter(key, Pass(key, s, w), k) == Filter(key, s, k)
    decreases |s|
  {
    if |s| > 0 {
      var left := s[..Min(w, |s|)];
      var rest := s[Min(w, |s|)..];
      var right := rest[..Min(w, |rest|)];
      var next := rest[Min(w, |rest|)..];
      assert s == left + right + next;
      assert Sorted(key, left) by {
        if |s| <= w { assert left == s; }
      }
      assert RunsSorted(key, next, w) by {
        if |s| > w && |rest| > w { assert rest[..w] == right; }
        else { assert next == []; }
      }
      MergeStable(key, left, right, k);
      PassStable(key, next, w, k);
      FilterAppend(key, Merge(key, left, right), Pass(key, next, w), k);
      FilterAppend(key, left + right, next, k);
      FilterAppend(key, left, right, k);
    }
  }

  /**
   * sort: nothing for fewer than two nodes; otherwise bottom-up merge
   * passes with block sizes 1, 2, 4, ... while the block is shorter than
   * the list, each pass rebuilt into the list by push_back. The result is
   * sorted, a permutation, and stable.
   */
  method Sort<T>(key: T -> int, l: List<T>) returns (r: List<T>)
    requires Valid(l)
    ensures Valid(r) && Sorted(key, r.items)
    ensures multiset(r.items) == multiset(l.items)
    ensures forall k :: Filter(key, r.items, k) == Filter(key, l.items, k)
  {
    if l.size <= 1 {
      return l;
    }
    var s := l.items;
    var w: nat := 1;
    RunsSortedOne(key, s);
    while w < l.size
      invariant w > 0 && |s| == l.size && RunsSorted(key, s, w)
      invariant multiset(s) == multiset(l.items)
      invariant forall k :: Filter(key, s, k) == Filter(key, l.items, k)
      decreases l.size - w
    {
      forall k ensures Filter(key, Pass(key, s, w), k) == Filter(key, l.items, k) {
        PassStable(key, s, w, k);
      }
      PassSorts(key, s, w);
      s := Pass(key, s, w);
      w := 2 * w;
    }
    r := List(s, l.size);
  }

  /**
   * The nodes unique keeps after the last kept value: a node equal to it
   * is unlinked, any other is kept and becomes the value compared next.
   */
  function UniqueFrom<T(==)>(last: T, s: seq<T>): (r: seq<T>)
    ensures |r| <= |s|
    ensures |r| > 0 ==> r[0] != last
    ensures forall x :: x in r ==> x in s
  {
    if |s| == 0 then []
    else if s[0] == last then UniqueFrom(last, s[1..])
    else [s[0]] + UniqueFrom(s[0], s[1..])
  }

  /** The first node is always kept; the rest are filtered against it. */
  function Dedup<T(==)>(s: seq<T>): (r: seq<T>)
    requires |s| > 0
    ensures |r| > 0 && r[0] == s[0]
  {
    [s[0]] + UniqueFrom(s[0], s[1..])
  }

  /** No two neighbours are equal. */
  predicate NoAdjacentEqual<T(==)>(s: seq<T>)
  {
    forall i :: 0 < i < |s| ==> s[i - 1] != s[i]
  }

  lemma {:induction false} UniqueFromNoAdjacent<T>(last: T, s: seq<T>)
    ensures NoAdjacentEqual([last] + UniqueFrom(last, s))
    decreases |s|
  {
    if |s| > 0 {
      UniqueFromNoAdjacent(s[0], s[1..]);
      if s[0] == last {
        UniqueFromNoAdjacent(last, s[1..]);
      } else {
        var t := UniqueFrom(s[0], s[1..]);
        assert [last] + UniqueFrom(last, s) == [last] + ([s[0]] + t);
        assert [s[0]] + t == ([last] + ([s[0]] + t))[1..];
      }
    }
  }

  lemma {:induction false} UniqueFromKeeps<T>(last: T, s: seq<T>, x: T)
    requires x in s
    ensures x in [last] + UniqueFrom(last, s)
    decreases |s|
  {
    if s[0] != x {
      UniqueFromKeeps(if s[0] == last then last else s[0], s[1..], x);
    }
  }

  /** Nodes already free of equal neighbours all stay. */
  lemma {:induction false} UniqueFromFixes<T>(last: T, s: seq<T>)
    requires NoAdjacentEqual([last] + s)
    ensures UniqueFrom(last, s) == s
    decreases |s|
  {
    if |s| > 0 {
      assert s[0] != last by {
        var u := [last] + s;
        assert u[0] == last && u[1] == s[0] && u[0] != u[1];
      }
      assert NoAdjacentEqual([s[0]] + s[1..]) by {
        forall i | 0 < i < |s| ensures ([s[0]] + s[1..])[i - 1] != ([s[0]] + s[1..])[i] {
          assert [s[0]] + s[1..] == s;
          assert ([last] + s)[i] == s[i - 1] && ([last] + s)[i + 1] == s[i];
        }
      }
      UniqueFromFixes(s[0], s[1..]);
    }
  }

  /**
   * unique as written: equal neighbours are unlinked but size_ is never
   * decremented, so it keeps counting the removed nodes. The list must
   * not be empty: on an empty list the first step reads past the tail.
   */
  function UniqueAsWritten<T(==)>(l: List<T>): (r: List<T>)
    requires |l.items| > 0
    ensures r.size == l.size && NoAdjacentEqual(r.items)
  {
    UniqueFromNoAdjacent(l.items[0], l.items[1..]);
    List(Dedup(l.items), l.size)
  }

  /** Two equal nodes: one is unlinked, yet size() still reports two. */
  lemma UniqueAsWrittenMiscounts()
    ensures UniqueAsWritten(List([4, 4], 2)) == List([4], 2)
    ensures !Valid(UniqueAsWritten(List([4, 4], 2)))
  {
    assert [4, 4][1..] == [4];
    assert UniqueFrom(4, [4]) == UniqueFrom(4, []);
  }

  /**
   * unique with the count kept: equal neighbours collapse to their first
   * node, every value still occurs, a list without equal neighbours is
   * left alone, and size_ counts the nodes that remain.
   */
  function Unique<T(==)>(l: List<T>): (r: List<T>)
    requires |l.items| > 0
    ensures Valid(r) && NoAdjacentEqual(r.items) && |r.items| <= |l.items|
    ensures forall x :: x in l.items ==> x in r.items
    ensures forall x :: x in r.items ==> x in l.items
    ensures NoAdjacentEqual(l.items) ==> r.items == l.items
    ensures r.items == UniqueAsWritten(l).items
  {
    DedupFacts(l.items);
    var d := Dedup(l.items);
    List(d, |d|)
  }

  lemma DedupFacts<T>(s: seq<T>)
    requires |s| > 0
    ensures NoAdjacentEqual(Dedup(s))
    ensures forall x :: x in s ==> x in Dedup(s)
    ensures forall x :: x in Dedup(s) ==> x in s
    ensures NoAdjacentEqual(s) ==> Dedup(s) == s
  {
    UniqueFromNoAdjacent(s[0], s[1..]);
    assert s == [s[0]] + s[1..];
    forall x | x in s ensures x in Dedup(s) {
      if x != s[0] {
        UniqueFromKeeps(s[0], s[1..], x);
      }
    }
    if NoAdjacentEqual(s) {
      UniqueFromFixes(s[0], s[1..]);
    }
  }
}
