/**
 * Lookups of rb_tree.h: the lower- and upper-bound descents, find,
 * equal_range and count, and their transparent (heterogeneous key)
 * counterparts. Every result is an iterator, i.e. a position 0..Size(t)
 * of the in-order sequence, Size(t) standing for end().
 */
module RbLookup {
  import opened RbTree

  /** Position i is the first one whose key is not less than k. */
  predicate IsLowerBound<V>(s: seq<Entry<V>>, k: int, i: int)
  {
    0 <= i <= |s| &&
    (forall j :: 0 <= j < i ==> s[j].key < k) &&
    (forall j :: i <= j < |s| ==> k <= s[j].key)
  }

  /** Position i is the first one whose key is greater than k. */
  predicate IsUpperBound<V>(s: seq<Entry<V>>, k: int, i: int)
  {
    0 <= i <= |s| &&
    (forall j :: 0 <= j < i ==> s[j].key <= k) &&
    (forall j :: i <= j < |s| ==> k < s[j].key)
  }

  /**
   * M_lower_bound(x, y, k): descend left (remembering the node) while the
   * node's key is not less than k, right otherwise. Started at a subtree,
   * the remembered y is the position just past the subtree, Size(t).
   */
  function LowerBound<V>(t: Tree<V>, k: int): (i: nat)
    ensures i <= Size(t)
  {
    match t
    case Leaf => 0
    case Node(_, l, key, _, r) =>
      if !(key < k) then LowerBound(l, k) else Size(l) + 1 + LowerBound(r, k)
  }

  /** The lower-bound descent never stops before a key less than k, ordered tree or not. */
  lemma {:induction false} LowerBoundAbove<V>(t: Tree<V>, k: int)
    ensures LowerBound(t, k) < Size(t) ==> k <= Elems(t)[LowerBound(t, k)].key
  {
    match t
    case Leaf =>
    case Node(_, l, key, v, r) =>
      var i := LowerBound(t, k);
      if i < Size(t) {
        JoinIndex(Elems(l), Entry(key, v), Elems(r), i);
        if !(key < k) {
          LowerBoundAbove(l, k);
        } else {
          LowerBoundAbove(r, k);
        }
      }
  }

  /** Indexing the in-order sequence of a node: left part, the node, right part. */
  lemma JoinIndex<E>(a: seq<E>, m: E, b: seq<E>, i: nat)
    requires i < |a| + 1 + |b|
    ensures i < |a| ==> (a + [m] + b)[i] == a[i]
    ensures i == |a| ==> (a + [m] + b)[i] == m
    ensures |a| < i ==> (a + [m] + b)[i] == b[i - |a| - 1]
  {
  }

  /** M_upper_bound(x, y, k): descend left while k is less than the node's key. */
  function UpperBound<V>(t: Tree<V>, k: int): (i: nat)
    ensures i <= Size(t)
  {
    match t
    case Leaf => 0
    case Node(_, l, key, _, r) =>
      if k < key then UpperBound(l, k) else Size(l) + 1 + UpperBound(r, k)
  }

  /** On an ordered tree the lower-bound descent finds the lower bound. */
  lemma {:induction false} LowerBoundCorrect<V>(t: Tree<V>, k: int)
    requires Ordered(t)
    ensures IsLowerBound(Elems(t), k, LowerBound(t, k))
  {
    match t
    case Leaf =>
    case Node(c, l, key, v, r) =>
      OrderedNode(c, l, key, v, r);
      if !(key < k) {
        LowerBoundCorrect(l, k);
        BoundJoinLeft(Elems(l), Entry(key, v), Elems(r), k, LowerBound(l, k), false);
      } else {
        LowerBoundCorrect(r, k);
        BoundJoinRight(Elems(l), Entry(key, v), Elems(r), k, LowerBound(r, k), false);
      }
  }

  /** On an ordered tree the upper-bound descent finds the upper bound. */
  lemma {:induction false} UpperBoundCorrect<V>(t: Tree<V>, k: int)
    requires Ordered(t)
    ensures IsUpperBound(Elems(t), k, UpperBound(t, k))
  {
    match t
    case Leaf =>
    case Node(c, l, key, v, r) =>
      OrderedNode(c, l, key, v, r);
      if k < key {
        UpperBoundCorrect(l, k);
        BoundJoinLeft(Elems(l), Entry(key, v), Elems(r), k, UpperBound(l, k), true);
      } else {
        UpperBoundCorrect(r, k);
        BoundJoinRight(Elems(l), Entry(key, v), Elems(r), k, UpperBound(r, k), true);
      }
  }

  /** The lower bound (upper when `upper`) of a sequence. */
  predicate IsBound<V>(s: seq<Entry<V>>, k: int, i: int, upper: bool)
  {
    if upper then IsUpperBound(s, k, i) else IsLowerBound(s, k, i)
  }

  /** A bound found in the left part of a node stays the bound of the whole node. */
  lemma BoundJoinLeft<V>(a: seq<Entry<V>>, m: Entry<V>, b: seq<Entry<V>>, k: int, i: int, upper: bool)
    requires IsBound(a, k, i, upper)
    requires if upper then k < m.key else k <= m.key
    requires forall j :: 0 <= j < |b| ==> m.key <= b[j].key
    ensures IsBound(a + [m] + b, k, i, upper)
  {
    var s := a + [m] + b;
    assert forall j :: 0 <= j < |a| ==> s[j] == a[j];
    assert forall j :: 0 <= j < |b| ==> s[|a| + 1 + j] == b[j];
    assert s[|a|] == m;
  }

  /** A bound found in the right part of a node, shifted past the node. */
  lemma BoundJoinRight<V>(a: seq<Entry<V>>, m: Entry<V>, b: seq<Entry<V>>, k: int, i: int, upper: bool)
    requires forall j :: 0 <= j < |a| ==> a[j].key <= m.key
    requires if upper then m.key <= k else m.key < k
    requires IsBound(b, k, i, upper)
    ensures IsBound(a + [m] + b, k, |a| + 1 + i, upper)
  {
    var s := a + [m] + b;
    assert forall j :: 0 <= j < |a| ==> s[j] == a[j];
    assert forall j :: 0 <= j < |b| ==> s[|a| + 1 + j] == b[j];
    assert s[|a|] == m;
  }

  /**
   * find: the lower bound, unless it is end() or holds a key greater than
   * k, in which case end().
   */
  function Find<V>(t: Tree<V>, k: int): (i: nat)
    ensures i <= Size(t)
    ensures i < Size(t) ==> Elems(t)[i].key == k
  {
    var j := LowerBound(t, k);
    LowerBoundAbove(t, k);
    if j == Size(t) || k < Elems(t)[j].key then Size(t) else j
  }

  /**
   * On an ordered tree find returns the first entry with key k, and end()
   * exactly when no entry has key k.
   */
  lemma FindCorrect<V>(t: Tree<V>, k: int)
    requires Ordered(t)
    ensures Find(t, k) == Size(t) <==> forall j :: 0 <= j < Size(t) ==> Elems(t)[j].key != k
    ensures Find(t, k) < Size(t) ==> forall j :: 0 <= j < Find(t, k) ==> Elems(t)[j].key < k
  {
    assert Find(t, k) == FindTr(t, Probe(k, k)) by { BoundsTrAtEnds(t, Probe(k, k)); }
    FindTrCorrect(t, Probe(k, k));
  }

  /**
   * equal_range: descend as the bounds do until a node with key k is met,
   * then finish with a lower-bound descent of its left subtree and an
   * upper-bound descent of its right subtree. A miss yields (y, y).
   */
  function EqualRange<V>(t: Tree<V>, k: int): (p: (nat, nat))
    ensures p.0 <= p.1 <= Size(t)
  {
    match t
    case Leaf => (0, 0)
    case Node(_, l, key, _, r) =>
      if key < k then
        var p := EqualRange(r, k);
        (Size(l) + 1 + p.0, Size(l) + 1 + p.1)
      else if k < key then
        EqualRange(l, k)
      else
        (LowerBound(l, k), Size(l) + 1 + UpperBound(r, k))
  }

  /** The pair (lower_bound, upper_bound) of a subtree. */
  function Bounds<V>(t: Tree<V>, k: int): (p: (nat, nat))
  {
    (LowerBound(t, k), UpperBound(t, k))
  }

  /** At a node with a smaller key all three descents go right. */
  lemma EqualRangeGoRight<V>(t: Tree<V>, k: int)
    requires t.Node? && t.key < k && EqualRange(t.right, k) == Bounds(t.right, k)
    ensures EqualRange(t, k) == Bounds(t, k)
  {
    var n := Size(t.left) + 1;
    assert EqualRange(t, k) == (n + EqualRange(t.right, k).0, n + EqualRange(t.right, k).1);
    assert Bounds(t, k) == (n + LowerBound(t.right, k), n + UpperBound(t.right, k));
  }

  /** At a node with a greater key all three descents go left. */
  lemma EqualRangeGoLeft<V>(t: Tree<V>, k: int)
    requires t.Node? && k < t.key && EqualRange(t.left, k) == Bounds(t.left, k)
    ensures EqualRange(t, k) == Bounds(t, k)
  {
    assert EqualRange(t, k) == EqualRange(t.left, k);
    assert Bounds(t, k) == Bounds(t.left, k);
  }

  /** At a node with key k the bounds split into the left and right descents. */
  lemma EqualRangeMet<V>(t: Tree<V>, k: int)
    requires t.Node? && t.key == k
    ensures EqualRange(t, k) == Bounds(t, k)
  {
  }

  /**
   * equal_range is the pair (lower_bound, upper_bound): the three descents
   * take the same turns until the key is met, on any tree.
   */
  lemma {:induction false} EqualRangeBounds<V>(t: Tree<V>, k: int)
    ensures EqualRange(t, k) == (LowerBound(t, k), UpperBound(t, k))
  {
    if t.Node? {
      if t.key < k {
        EqualRangeBounds(t.right, k);
        EqualRangeGoRight(t, k);
      } else if k < t.key {
        EqualRangeBounds(t.left, k);
        EqualRangeGoLeft(t, k);
      } else {
        EqualRangeMet(t, k);
      }
    }
  }

  /** Number of entries whose key lies in [lo, hi]. */
  function CountIn<V>(s: seq<Entry<V>>, lo: int, hi: int): (n: nat)
    ensures n <= |s|
  {
    if s == [] then 0
    else (if lo <= s[0].key <= hi then 1 else 0) + CountIn(s[1..], lo, hi)
  }

  lemma {:induction false} CountInAppend<V>(a: seq<Entry<V>>, b: seq<Entry<V>>, lo: int, hi: int)
    ensures CountIn(a + b, lo, hi) == CountIn(a, lo, hi) + CountIn(b, lo, hi)
  {
    if a == [] {
      assert a + b == b;
    } else {
      assert (a + b)[1..] == a[1..] + b;
      CountInAppend(a[1..], b, lo, hi);
    }
  }

  /** CountIn of a run whose keys all lie in [lo, hi] (all outside) is its length (zero). */
  lemma {:induction false} CountInUniform<V>(s: seq<Entry<V>>, lo: int, hi: int, inside: bool)
    requires forall j :: 0 <= j < |s| ==> (lo <= s[j].key <= hi) == inside
    ensures CountIn(s, lo, hi) == if inside then |s| else 0
  {
    if s != [] {
      CountInUniform(s[1..], lo, hi, inside);
    }
  }

  /**
   * Splitting a sequence at positions a <= b whose keys are in [lo, hi]
   * exactly between a and b: CountIn counts b - a entries.
   */
  lemma CountInBetween<V>(s: seq<Entry<V>>, lo: int, hi: int, a: nat, b: nat)
    requires a <= b <= |s|
    requires forall j :: 0 <= j < |s| ==> (lo <= s[j].key <= hi <==> a <= j < b)
    ensures CountIn(s, lo, hi) == b - a
  {
    assert s == s[..a] + s[a..b] + s[b..];
    CountInAppend(s[..a] + s[a..b], s[b..], lo, hi);
    CountInAppend(s[..a], s[a..b], lo, hi);
    CountInUniform(s[..a], lo, hi, false);
    CountInUniform(s[a..b], lo, hi, true);
    CountInUniform(s[b..], lo, hi, false);
  }

  /** count: the distance between the two ends of equal_range. */
  function Count<V>(t: Tree<V>, k: int): (n: nat)
    ensures n <= Size(t)
  {
    var p := EqualRange(t, k);
    p.1 - p.0
  }

  /** On an ordered tree count is the number of entries with key k. */
  lemma CountCorrect<V>(t: Tree<V>, k: int)
    requires Ordered(t)
    ensures Count(t, k) == CountIn(Elems(t), k, k)
  {
    EqualRangeBounds(t, k);
    LowerBoundCorrect(t, k);
    UpperBoundCorrect(t, k);
    CountInBetween(Elems(t), k, k, LowerBound(t, k), UpperBound(t, k));
  }

  /**
   * A transparent comparator's probe: it is greater than every key below
   * lo, less than every key above hi, and equivalent to the keys in
   * between.
   */
  datatype Probe = Probe(lo: int, hi: int)

  /** key < probe under the transparent comparator. */
  predicate KeyBelow(key: int, p: Probe) { key < p.lo }

  /** probe < key under the transparent comparator. */
  predicate KeyAbove(key: int, p: Probe) { p.hi < key }

  /** M_lower_bound_tr: the lower-bound descent with the probe. */
  function LowerBoundTr<V>(t: Tree<V>, p: Probe): (i: nat)
    ensures i <= Size(t)
  {
    match t
    case Leaf => 0
    case Node(_, l, key, _, r) =>
      if !KeyBelow(key, p) then LowerBoundTr(l, p) else Size(l) + 1 + LowerBoundTr(r, p)
  }

  /** M_upper_bound_tr: the upper-bound descent with the probe. */
  function UpperBoundTr<V>(t: Tree<V>, p: Probe): (i: nat)
    ensures i <= Size(t)
  {
    match t
    case Leaf => 0
    case Node(_, l, key, _, r) =>
      if KeyAbove(key, p) then UpperBoundTr(l, p) else Size(l) + 1 + UpperBoundTr(r, p)
  }

  /** The probe descents are the key descents at the probe's two ends. */
  lemma {:induction false} BoundsTrAtEnds<V>(t: Tree<V>, p: Probe)
    ensures LowerBoundTr(t, p) == LowerBound(t, p.lo)
    ensures UpperBoundTr(t, p) == UpperBound(t, p.hi)
  {
    match t
    case Leaf =>
    case Node(_, l, _, _, r) =>
      BoundsTrAtEnds(l, p);
      BoundsTrAtEnds(r, p);
  }

  /** M_find_tr: the probe's lower bound, unless it is end() or above the probe. */
  function FindTr<V>(t: Tree<V>, p: Probe): (i: nat)
    ensures i <= Size(t)
    ensures i < Size(t) ==> Elems(t)[i].key <= p.hi
  {
    var j := LowerBoundTr(t, p);
    if j != Size(t) && KeyAbove(Elems(t)[j].key, p) then Size(t) else j
  }

  /**
   * On an ordered tree the transparent find returns the first entry
   * equivalent to the probe, and end() exactly when there is none.
   */
  lemma FindTrCorrect<V>(t: Tree<V>, p: Probe)
    requires Ordered(t)
    ensures FindTr(t, p) == |Elems(t)| <==>
              forall j :: 0 <= j < |Elems(t)| ==> !(p.lo <= Elems(t)[j].key <= p.hi)
    ensures FindTr(t, p) < |Elems(t)| ==> forall j :: 0 <= j < FindTr(t, p) ==> Elems(t)[j].key < p.lo
  {
    var s, i := Elems(t), LowerBound(t, p.lo);
    BoundsTrAtEnds(t, p);
    LowerBoundCorrect(t, p.lo);
    assert FindTr(t, p) == if i != |s| && KeyAbove(s[i].key, p) then |s| else i;
    FindInSorted(s, p, i, FindTr(t, p));
  }

  /** The find decision on a sorted sequence whose lower bound of the probe is i. */
  lemma FindInSorted<V>(s: seq<Entry<V>>, p: Probe, i: int, f: int)
    requires Sorted(s) && IsLowerBound(s, p.lo, i)
    requires f == if i != |s| && KeyAbove(s[i].key, p) then |s| else i
    ensures f == |s| <==> forall j :: 0 <= j < |s| ==> !(p.lo <= s[j].key <= p.hi)
    ensures f < |s| ==> forall j :: 0 <= j < f ==> s[j].key < p.lo
  {
    MissPastLowerBound(s, p, i);
  }

  /**
   * In a sorted sequence, nothing lies in [lo, hi] exactly when the lower
   * bound of lo is the end or holds a key above hi.
   */
  lemma MissPastLowerBound<V>(s: seq<Entry<V>>, p: Probe, i: int)
    requires Sorted(s) && IsLowerBound(s, p.lo, i)
    ensures (i == |s| || p.hi < s[i].key) <==> forall j :: 0 <= j < |s| ==> !(p.lo <= s[j].key <= p.hi)
  {
    if i < |s| && p.hi < s[i].key {
      forall j | 0 <= j < |s| ensures !(p.lo <= s[j].key <= p.hi) {
        if i <= j { assert s[i].key <= s[j].key; }
      }
    }
  }

  /**
   * M_equal_range_tr: start at the probe's lower bound and step forward
   * while the probe is not less than the key there.
   */
  method EqualRangeTr<V>(t: Tree<V>, p: Probe) returns (low: nat, high: nat)
    requires Ordered(t)
    ensures low == LowerBound(t, p.lo)
    ensures low <= high <= Size(t)
    ensures forall j :: low <= j < high ==> p.lo <= Elems(t)[j].key <= p.hi
    ensures high == Size(t) || p.hi < Elems(t)[high].key
  {
    BoundsTrAtEnds(t, p);
    LowerBoundCorrect(t, p.lo);
    var s := Elems(t);
    low := LowerBoundTr(t, p);
    high := low;
    while high != |s| && !KeyAbove(s[high].key, p)
      invariant low <= high <= |s|
      invariant forall j :: low <= j < high ==> p.lo <= s[j].key <= p.hi
    {
      high := high + 1;
    }
  }

  /** M_count_tr: the length of the transparent equal range. */
  method CountTr<V>(t: Tree<V>, p: Probe) returns (n: nat)
    requires Ordered(t)
    ensures n == CountIn(Elems(t), p.lo, p.hi)
  {
    var low, high := EqualRangeTr(t, p);
    LowerBoundCorrect(t, p.lo);
    var s := Elems(t);
    forall j | 0 <= j < |s| ensures p.lo <= s[j].key <= p.hi <==> low <= j < high {
      if high <= j && high < |s| { assert s[high].key <= s[j].key; }
    }
    CountInBetween(s, p.lo, p.hi, low, high);
    n := high - low;
  }
}
