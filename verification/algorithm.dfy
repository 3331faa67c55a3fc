/**
 * The sorting routines of algorithm.h on int elements under a comparator
 * (std::less by default): insertion sort, heapify and heap sort, the
 * middle-pivot partition, log2 and introsort. The source sorts a range in
 * place through iterators; here a range is a sequence and every routine
 * returns the rearranged sequence.
 */
module Algorithm {
  import opened Heap

  /** No element compares before an earlier one: the order comp sorts into. */
  predicate Sorted(c: Cmp, s: seq<int>)
  {
    forall i, j :: 0 <= i < j < |s| ==> !Comp(c, s[j], s[i])
  }

  /** Every element of a compares no later than every element of b. */
  predicate AllBefore(c: Cmp, a: seq<int>, b: seq<int>)
  {
    forall i, j :: 0 <= i < |a| && 0 <= j < |b| ==> !Comp(c, b[j], a[i])
  }

  /** swap: the two values change places. */
  function Swap(a: int, b: int): (r: (int, int))
    ensures multiset{r.0, r.1} == multiset{a, b}
    ensures r.0 == b && r.1 == a
  {
    (b, a)
  }

  /**
   * insertionSort: each new element is swapped down past every
   * predecessor that compares after it. The range must not be empty: the
   * source starts at first + 1 and compares with != last.
   */
  method InsertionSort(c: Cmp, s: seq<int>) returns (r: seq<int>)
    requires |s| > 0
    ensures Sorted(c, r) && multiset(r) == multiset(s)
  {
    r := s;
    var i := 1;
    while i != |r|
      invariant 1 <= i <= |r| == |s|
      invariant SortedBelow(c, r, i) && multiset(r) == multiset(s)
    {
      r := SinkInto(c, r, i);
      i := i + 1;
    }
  }

  /** The first n elements are in order. */
  predicate SortedBelow(c: Cmp, s: seq<int>, n: nat)
  {
    forall a, b :: 0 <= a < b < n && b < |s| ==> !Comp(c, s[b], s[a])
  }

  /**
   * One pass of insertionSort's inner loop: the element at i is swapped
   * down past every predecessor that compares after it, which extends the
   * sorted prefix by one.
   */
  method SinkInto(c: Cmp, s: seq<int>, i: nat) returns (r: seq<int>)
    requires 0 < i < |s| && SortedBelow(c, s, i)
    ensures |r| == |s| && SortedBelow(c, r, i + 1) && multiset(r) == multiset(s)
  {
    r := s;
    var j := i;
    while j > 0 && Comp(c, r[j], r[j - 1])
      invariant 0 <= j <= i && |r| == |s| && multiset(r) == multiset(s)
      invariant SinkState(c, r, i, j)
    {
      SinkSwap(c, r, i, j);
      r := SwapAt(r, j, j - 1);
      j := j - 1;
    }
    SinkDone(c, r, i, j);
  }

  /**
   * Inner-loop state of insertionSort with the moving element at j: the
   * first i + 1 slots are in order except across j, and the elements on
   * both sides of j are in order with each other.
   */
  predicate SinkState(c: Cmp, r: seq<int>, i: nat, j: nat)
    requires j <= i < |r|
  {
    (forall a, b :: 0 <= a < b <= i && b != j ==> !Comp(c, r[b], r[a])) &&
    (0 < j < i ==> !Comp(c, r[j + 1], r[j - 1]))
  }

  /** Swapping the moving element past a predecessor that compares after it keeps the state. */
  lemma SinkSwap(c: Cmp, r: seq<int>, i: nat, j: nat)
    requires 0 < j <= i < |r| && SinkState(c, r, i, j) && Comp(c, r[j], r[j - 1])
    ensures SinkState(c, SwapAt(r, j, j - 1), i, j - 1)
  {
  }

  /** When the moving element stops, the first i + 1 slots are in order. */
  lemma SinkDone(c: Cmp, r: seq<int>, i: nat, j: nat)
    requires j <= i < |r| && SinkState(c, r, i, j)
    requires j > 0 ==> !Comp(c, r[j], r[j - 1])
    ensures SortedBelow(c, r, i + 1)
  {
  }

  /**
   * heapify(first, n, i): sift the element at i down the first n slots,
   * swapping it with its larger child until it outranks both.
   */
  function Heapify(c: Cmp, s: seq<int>, n: nat, i: nat): (r: seq<int>)
    requires n <= |s|
    ensures |r| == |s| && multiset(r) == multiset(s)
    ensures forall k :: n <= k < |s| ==> r[k] == s[k]
    decreases n - i
  {
    if i >= n then s
    else
      var m := Largest(c, s, n, i);
      if m == i then s else Heapify(c, SwapAt(s, i, m), n, m)
  }

  /**
   * Given heap order below i (the subtrees of i's children are heaps),
   * heapify(i) makes the whole forest from the root lo a heap.
   */
  lemma {:induction false} HeapifyRestores(c: Cmp, s: seq<int>, n: nat, lo: nat, i: nat)
    requires n <= |s| && SiftInv(c, s, n, lo, i)
    ensures HeapFrom(c, Heapify(c, s, n, i), n, lo)
    decreases n - i
  {
    var m := Largest(c, s, n, i);
    if m == i {
      SiftStop(c, s, n, lo, i);
    } else {
      SiftSwap(c, s, n, lo, i);
      HeapifyRestores(c, SwapAt(s, i, m), n, lo, m);
    }
  }

  /** Heap order from i + 1 on is a sift-down state at i. */
  lemma HeapFromSift(c: Cmp, s: seq<int>, n: nat, i: nat)
    requires i < n <= |s| && HeapFrom(c, s, n, i + 1)
    ensures SiftInv(c, s, n, i, i)
  {
  }

  /** The permutation of a prefix keeps a bound between the prefix and the rest. */
  lemma PrefixPermBounded(c: Cmp, s: seq<int>, t: seq<int>, k: nat)
    requires k <= |s| == |t| && multiset(t) == multiset(s)
    requires forall j :: k <= j < |s| ==> t[j] == s[j]
    requires forall a, b :: 0 <= a < k <= b < |s| ==> !Comp(c, s[b], s[a])
    ensures forall a, b :: 0 <= a < k <= b < |t| ==> !Comp(c, t[b], t[a])
  {
    PrefixMultiset(s, t, k);
    forall a, b | 0 <= a < k <= b < |t|
      ensures !Comp(c, t[b], t[a])
    {
      assert t[a] in multiset(t[..k]);
      assert t[a] in s[..k];
      var a' :| 0 <= a' < k && s[..k][a'] == t[a];
      assert s[a'] == t[a];
    }
  }

  /** Permuting a sequence while keeping its suffix from k permutes the prefix before k. */
  lemma PrefixMultiset(s: seq<int>, t: seq<int>, k: nat)
    requires k <= |s| == |t| && multiset(t) == multiset(s)
    requires forall j :: k <= j < |s| ==> t[j] == s[j]
    ensures multiset(t[..k]) == multiset(s[..k])
  {
    assert t[k..] == s[k..];
    assert t == t[..k] + t[k..];
    assert s == s[..k] + s[k..];
    assert multiset(t) == multiset(t[..k]) + multiset(t[k..]);
    assert multiset(s) == multiset(s[..k]) + multiset(s[k..]);
    assert multiset(t[..k]) == multiset(t) - multiset(t[k..]);
    assert multiset(s[..k]) == multiset(s) - multiset(s[k..]);
  }

  /**
   * The sorting phase of heapSort after the slots from i + 1 on have been
   * filled: the first i + 1 slots are a heap, the rest are sorted, and no
   * heap element compares after a sorted one.
   */
  predicate SortPhase(c: Cmp, r: seq<int>, i: nat)
  {
    i < |r| && HeapFrom(c, r, i + 1, 0) && Sorted(c, r[i + 1..]) &&
    forall a, b :: 0 <= a <= i < b < |r| ==> !Comp(c, r[b], r[a])
  }

  /** Swapping the root behind the heap: a sift-down state at the root, with the sorted tail one longer. */
  lemma SwapPhase(c: Cmp, r: seq<int>, i: nat)
    requires SortPhase(c, r, i) && i > 0
    ensures var t := SwapAt(r, 0, i);
      SiftInv(c, t, i, 0, 0) && Sorted(c, t[i..]) &&
      forall a, b :: 0 <= a < i <= b < |t| ==> !Comp(c, t[b], t[a])
  {
    forall j | 0 <= j <= i ensures !Comp(c, r[0], r[j]) {
      RootFirst(c, r, i + 1, j);
    }
    var t := SwapAt(r, 0, i);
    assert SiftInv(c, t, i, 0, 0);
    assert forall a, b :: 0 <= a < i <= b < |t| ==> !Comp(c, t[b], t[a]);
    SortedCons(c, t[i..]);
  }

  /** Moving the root behind the heap and sifting down the new root keeps the phase. */
  lemma SortPhaseStep(c: Cmp, r: seq<int>, i: nat)
    requires SortPhase(c, r, i) && i > 0
    ensures var u := Heapify(c, SwapAt(r, 0, i), i, 0);
      |u| == |r| && multiset(u) == multiset(r) && SortPhase(c, u, i - 1)
  {
    var t := SwapAt(r, 0, i);
    SwapPhase(c, r, i);
    HeapifyRestores(c, t, i, 0, 0);
    var u := Heapify(c, t, i, 0);
    PrefixPermBounded(c, t, u, i);
    SuffixKept(t, u, i);
    SortPhaseIntro(c, u, i);
  }

  lemma SuffixKept(t: seq<int>, u: seq<int>, i: nat)
    requires i <= |t| == |u| && forall k :: i <= k < |t| ==> u[k] == t[k]
    ensures u[i..] == t[i..]
  {
  }

  /** The three parts of the sorting phase at i - 1, stated with i. */
  lemma SortPhaseIntro(c: Cmp, u: seq<int>, i: nat)
    requires 0 < i <= |u| && HeapFrom(c, u, i, 0) && Sorted(c, u[i..])
    requires forall a, b :: 0 <= a < i <= b < |u| ==> !Comp(c, u[b], u[a])
    ensures SortPhase(c, u, i - 1)
  {
  }

  /** A sorted sequence stays sorted with an element in front that compares no later. */
  lemma SortedCons(c: Cmp, s: seq<int>)
    requires |s| > 0 && Sorted(c, s[1..])
    requires forall j :: 1 <= j < |s| ==> !Comp(c, s[j], s[0])
    ensures Sorted(c, s)
  {
    forall i, j | 0 <= i < j < |s| ensures !Comp(c, s[j], s[i]) {
      if i > 0 {
        assert s[i] == s[1..][i - 1] && s[j] == s[1..][j - 1];
      }
    }
  }

  /** With one slot left in the heap, the whole sequence is sorted. */
  lemma SortPhaseDone(c: Cmp, r: seq<int>)
    requires SortPhase(c, r, 0)
    ensures Sorted(c, r)
  {
    assert r[1..] == r[0 + 1..];
    SortedCons(c, r);
  }

  /** Before the build loop, no slot has a child at or after slot n / 2. */
  lemma HeapFromHalf(c: Cmp, s: seq<int>)
    ensures HeapFrom(c, s, |s|, |s| / 2)
  {
  }

  /**
   * heapSort: build a heap bottom-up (heapify from n/2 - 1 down to 0),
   * then repeatedly swap the root to the end of the shrinking heap and
   * sift the new root down.
   */
  method HeapSort(c: Cmp, s: seq<int>) returns (r: seq<int>)
    ensures Sorted(c, r) && multiset(r) == multiset(s)
  {
    r := s;
    var n := |s|;
    var i := n / 2 - 1;
    HeapFromHalf(c, s);
    while i >= 0
      invariant -1 <= i && i + 1 <= n / 2
      invariant |r| == n && multiset(r) == multiset(s)
      invariant HeapFrom(c, r, n, i + 1)
    {
      HeapFromSift(c, r, n, i);
      HeapifyRestores(c, r, n, i, i);
      r := Heapify(c, r, n, i);
      i := i - 1;
    }
    if n == 0 {
      return;
    }
    var k: nat := n - 1;
    assert r[k + 1..] == [];
    while k > 0
      invariant |r| == n && multiset(r) == multiset(s)
      invariant SortPhase(c, r, k)
    {
      SortPhaseStep(c, r, k);
      r := Heapify(c, SwapAt(r, 0, k), k, 0);
      k := k - 1;
    }
    SortPhaseDone(c, r);
  }

  /**
   * partition: Hoare's scheme around the middle element
   * s[(n - 1) / 2]: scan from the left past elements that compare before
   * the pivot and from the right past elements that compare after it,
   * swap the pair where both stop, and stop once the scans meet. The
   * range must not be empty.
   */
  method Partition(c: Cmp, s: seq<int>) returns (r: seq<int>, cut: nat)
    requires |s| > 0
    ensures |r| == |s| && multiset(r) == multiset(s) && cut <= |s|
    ensures forall k :: 0 <= k < cut ==> !Comp(c, s[(|s| - 1) / 2], r[k])
    ensures forall k :: cut <= k < |r| ==> !Comp(c, r[k], s[(|s| - 1) / 2])
    ensures |s| >= 3 ==> 0 < cut < |s|
  {
    var n := |s|;
    var mid := (n - 1) / 2;
    var pivot := s[mid];
    r := s;
    var left, right := 0, n - 1;
    ghost var lstop, rstop := mid, mid;
    while true
      invariant |r| == n && multiset(r) == multiset(s)
      invariant 0 <= left <= lstop < n && 0 <= rstop <= right < n
      invariant !Comp(c, r[lstop], pivot) && !Comp(c, pivot, r[rstop])
      invariant forall k :: 0 <= k < left ==> !Comp(c, pivot, r[k])
      invariant forall k :: right < k < n ==> !Comp(c, r[k], pivot)
      invariant left == 0 ==> rstop == mid
      decreases right - left + n
    {
      while Comp(c, r[left], pivot)
        invariant left <= lstop
        invariant forall k :: 0 <= k < left ==> !Comp(c, pivot, r[k])
        decreases lstop - left
      {
        left := left + 1;
      }
      while Comp(c, pivot, r[right])
        invariant rstop <= right
        invariant forall k :: right < k < n ==> !Comp(c, r[k], pivot)
        decreases right - rstop
      {
        right := right - 1;
      }
      if left >= right {
        break;
      }
      r := SwapAt(r, left, right);
      lstop, rstop := right, left;
      left, right := left + 1, right - 1;
    }
    cut := left;
  }

  /** Taking a sub-multiset on the right keeps every pair in order. */
  lemma AllBeforeRight(c: Cmp, a: seq<int>, b: seq<int>, b2: seq<int>)
    requires AllBefore(c, a, b) && multiset(b2) <= multiset(b)
    ensures AllBefore(c, a, b2)
  {
    forall i, j | 0 <= i < |a| && 0 <= j < |b2| ensures !Comp(c, b2[j], a[i]) {
      assert b2[j] in multiset(b2);
      var j' :| 0 <= j' < |b| && b[j'] == b2[j];
    }
  }

  /** Taking a sub-multiset on the left keeps every pair in order. */
  lemma AllBeforeLeft(c: Cmp, a: seq<int>, a2: seq<int>, b: seq<int>)
    requires AllBefore(c, a, b) && multiset(a2) <= multiset(a)
    ensures AllBefore(c, a2, b)
  {
    forall i, j | 0 <= i < |a2| && 0 <= j < |b| ensures !Comp(c, b[j], a2[i]) {
      assert a2[i] in multiset(a2);
      var i' :| 0 <= i' < |a| && a[i'] == a2[i];
    }
  }

  /** Sorted pieces in order make a sorted whole. */
  lemma SortedAppend(c: Cmp, a: seq<int>, b: seq<int>)
    requires Sorted(c, a) && Sorted(c, b) && AllBefore(c, a, b)
    ensures Sorted(c, a + b)
  {
    var u := a + b;
    forall i, j | 0 <= i < j < |u| ensures !Comp(c, u[j], u[i]) {
      if j < |a| {
        assert u[i] == a[i] && u[j] == a[j];
      } else if i >= |a| {
        assert u[i] == b[i - |a|] && u[j] == b[j - |a|];
      } else {
        assert u[i] == a[i] && u[j] == b[j - |a|];
      }
    }
  }

  /** The two sides of a partition are in order. */
  lemma PartitionSides(c: Cmp, r: seq<int>, cut: nat, pivot: int)
    requires cut <= |r|
    requires forall k :: 0 <= k < cut ==> !Comp(c, pivot, r[k])
    requires forall k :: cut <= k < |r| ==> !Comp(c, r[k], pivot)
    ensures AllBefore(c, r[..cut], r[cut..])
    ensures multiset(r[..cut]) + multiset(r[cut..]) == multiset(r)
  {
    assert r == r[..cut] + r[cut..];
  }

  /**
   * The state of introSort's loop: the part already sorted in front, the
   * range [first, last) still to sort, and the part already sorted behind,
   * each in order with the next.
   */
  predicate IntroState(c: Cmp, s: seq<int>, pre: seq<int>, w: seq<int>, post: seq<int>)
  {
    Sorted(c, pre) && Sorted(c, post) &&
    AllBefore(c, pre, w) && AllBefore(c, w, post) && AllBefore(c, pre, post) &&
    multiset(pre) + multiset(w) + multiset(post) == multiset(s)
  }

  /** Sorting the rest in place finishes the whole sequence. */
  lemma IntroFinish(c: Cmp, s: seq<int>, pre: seq<int>, w: seq<int>, post: seq<int>, m: seq<int>)
    requires IntroState(c, s, pre, w, post) && Sorted(c, m) && multiset(m) == multiset(w)
    ensures Sorted(c, pre + m + post) && multiset(pre + m + post) == multiset(s)
  {
    AllBeforeRight(c, pre, w, m);
    AllBeforeLeft(c, w, m, post);
    SortedAppend(c, pre, m);
    AllBeforeConcat(c, pre, m, post);
    SortedAppend(c, pre + m, post);
  }

  lemma AllBeforeConcat(c: Cmp, a: seq<int>, b: seq<int>, d: seq<int>)
    requires AllBefore(c, a, d) && AllBefore(c, b, d)
    ensures AllBefore(c, a + b, d)
  {
    var u := a + b;
    forall i, j | 0 <= i < |u| && 0 <= j < |d| ensures !Comp(c, d[j], u[i]) {
      if i < |a| { assert u[i] == a[i]; } else { assert u[i] == b[i - |a|]; }
    }
  }

  lemma AllBeforeConcatRight(c: Cmp, a: seq<int>, b: seq<int>, d: seq<int>)
    requires AllBefore(c, a, b) && AllBefore(c, a, d)
    ensures AllBefore(c, a, b + d)
  {
    var u := b + d;
    forall i, j | 0 <= i < |a| && 0 <= j < |u| ensures !Comp(c, u[j], a[i]) {
      if j < |b| { assert u[j] == b[j]; } else { assert u[j] == d[j - |b|]; }
    }
  }

  /** Sorting the upper side of the partition and setting it behind keeps the state. */
  lemma IntroUpper(c: Cmp, s: seq<int>, pre: seq<int>, w: seq<int>, post: seq<int>,
                   w2: seq<int>, cut: nat, hi: seq<int>)
    requires IntroState(c, s, pre, w, post) && multiset(w2) == multiset(w) && cut <= |w2|
    requires AllBefore(c, w2[..cut], w2[cut..])
    requires Sorted(c, hi) && multiset(hi) == multiset(w2[cut..])
    ensures IntroState(c, s, pre, w2[..cut], hi + post)
  {
    var lo := w2[..cut];
    assert w2 == lo + w2[cut..];
    AllBeforeRight(c, pre, w, lo);
    AllBeforeRight(c, pre, w, hi);
    AllBeforeConcatRight(c, pre, hi, post);
    AllBeforeLeft(c, w, lo, post);
    AllBeforeRight(c, lo, w2[cut..], hi);
    AllBeforeConcatRight(c, lo, hi, post);
    AllBeforeLeft(c, w, hi, post);
    SortedAppend(c, hi, post);
  }

  /** Sorting the lower side of the partition and setting it in front keeps the state. */
  lemma IntroLower(c: Cmp, s: seq<int>, pre: seq<int>, w: seq<int>, post: seq<int>,
                   w2: seq<int>, cut: nat, lo: seq<int>)
    requires IntroState(c, s, pre, w, post) && multiset(w2) == multiset(w) && cut <= |w2|
    requires AllBefore(c, w2[..cut], w2[cut..])
    requires Sorted(c, lo) && multiset(lo) == multiset(w2[..cut])
    ensures IntroState(c, s, pre + lo, w2[cut..], post)
  {
    var hi := w2[cut..];
    assert w2 == w2[..cut] + hi;
    AllBeforeRight(c, pre, w, lo);
    AllBeforeRight(c, pre, w, hi);
    AllBeforeLeft(c, w2[..cut], lo, hi);
    AllBeforeConcat(c, pre, lo, hi);
    AllBeforeLeft(c, w, lo, post);
    AllBeforeLeft(c, w, hi, post);
    AllBeforeConcat(c, pre, lo, post);
    SortedAppend(c, pre, lo);
  }

  /**
   * introSort: while more than 16 elements remain, fall back to heapSort
   * once the depth limit is spent, otherwise partition, sort the smaller
   * side recursively and keep looping on the larger; finish with
   * insertionSort. The range must not be empty.
   */
  method IntroSort(c: Cmp, s: seq<int>, depthLimit: nat) returns (r: seq<int>)
    requires |s| > 0
    ensures Sorted(c, r) && multiset(r) == multiset(s)
    decreases depthLimit
  {
    var pre, w, post := [], s, [];
    var depth: nat := depthLimit;
    while |w| > 16
      invariant |w| > 0 && depth <= depthLimit
      invariant IntroState(c, s, pre, w, post)
      decreases depth
    {
      if depth == 0 {
        var h := HeapSort(c, w);
        IntroFinish(c, s, pre, w, post, h);
        return pre + h + post;
      }
      depth := depth - 1;
      var w2, cut := Partition(c, w);
      PartitionSides(c, w2, cut, w[(|w| - 1) / 2]);
      if |w2| - cut < cut {
        var hi := IntroSort(c, w2[cut..], depth);
        IntroUpper(c, s, pre, w, post, w2, cut, hi);
        pre, w, post := pre, w2[..cut], hi + post;
      } else {
        var lo := IntroSort(c, w2[..cut], depth);
        IntroLower(c, s, pre, w, post, w2, cut, lo);
        pre, w, post := pre + lo, w2[cut..], post;
      }
    }
    var m := InsertionSort(c, w);
    IntroFinish(c, s, pre, w, post, m);
    r := pre + m + post;
  }

  /** 2 to the power k. */
  function Pow2(k: nat): (p: nat)
    ensures p >= 1
  {
    if k == 0 then 1 else 2 * Pow2(k - 1)
  }

  /**
   * log2: shift n right until it is zero, counting the shifts; the
   * result is the floor of the base-2 logarithm (and 0 for n == 0). A
   * negative n never reaches zero under an arithmetic shift, so n must
   * not be negative.
   */
  method Log2(n: int) returns (r: nat)
    requires n >= 0
    ensures n >= 1 ==> Pow2(r) <= n < Pow2(r + 1)
    ensures n == 0 ==> r == 0
  {
    r := 0;
    var m := n / 2;
    assert Pow2(1) == 2;
    while m != 0
      invariant m >= 0
      invariant Pow2(r + 1) * m <= n < Pow2(r + 1) * (m + 1)
      invariant (r == 0 && n <= 1) || Pow2(r) <= n
      decreases m
    {
      Log2Step(n, r, m);
      r := r + 1;
      m := m / 2;
    }
    assert Pow2(r + 1) * (m + 1) == Pow2(r + 1);
  }

  /** One shift: the bracket around n moves up a power, and the old power fits in n. */
  lemma Log2Step(n: int, r: nat, m: nat)
    requires m >= 1 && Pow2(r + 1) * m <= n < Pow2(r + 1) * (m + 1)
    ensures Pow2(r + 2) * (m / 2) <= n < Pow2(r + 2) * (m / 2 + 1)
    ensures Pow2(r + 1) <= n
  {
    var p := Pow2(r + 1);
    assert Pow2(r + 2) == 2 * p;
    var h := m / 2;
    assert m == 2 * h || m == 2 * h + 1;
    assert p * m == p * (2 * h) + p * (m - 2 * h);
    assert p * (m + 1) == p * (2 * h) + p * (m + 1 - 2 * h);
    assert 2 * p * (h + 1) == p * (2 * h) + p * 2;
    assert 2 * p * h == p * (2 * h);
    assert p * m == p + p * (m - 1);
  }

  /**
   * sort: an empty range is left alone; otherwise introSort with a depth
   * limit of twice log2 of the length.
   */
  method Sort(c: Cmp, s: seq<int>) returns (r: seq<int>)
    ensures Sorted(c, r) && multiset(r) == multiset(s)
  {
    if |s| == 0 {
      return s;
    }
    var lg := Log2(|s|);
    r := IntroSort(c, s, 2 * lg);
  }
}
