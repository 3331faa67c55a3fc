/**
 * Vector of vector.h: a growable array. data holds the size_ constructed
 * elements in order and cap is capacity_, the length of the allocation.
 * Reallocation is modelled as copying the elements one by one into a
 * new buffer, as reserve and shrink_to_fit do.
 */
module Vectors {
  import opened Wrappers

  datatype Vector<T> = Vector(data: seq<T>, cap: nat)

  /** The elements fit in the allocation. */
  predicate Valid<T>(v: Vector<T>)
  {
    |v.data| <= v.cap
  }

  function Max(a: nat, b: nat): (m: nat)
    ensures m >= a && m >= b && (m == a || m == b)
  {
    if a >= b then a else b
  }

  /**
   * The capacity expand_capacity asks for: twice the current one or the
   * requested minimum, whichever is larger, and 1 if both are 0. It is
   * always more than the current capacity.
   */
  function GrownCapacity(cap: nat, min: nat): (n: nat)
    ensures n > cap && n >= min && n >= 2 * cap
    ensures n == Max(Max(2 * cap, min), 1)
  {
    var m := Max(2 * cap, min);
    if m == 0 then 1 else m
  }

  /**
   * reserve: nothing when the request fits; otherwise move every element
   * into a buffer of exactly the requested size.
   */
  method Reserve<T>(v: Vector<T>, n: nat) returns (r: Vector<T>)
    requires Valid(v)
    ensures Valid(r) && r.data == v.data
    ensures n <= v.cap ==> r == v
    ensures n > v.cap ==> r.cap == n
  {
    if n <= v.cap {
      return v;
    }
    var copy: seq<T> := [];
    var i := 0;
    while i < |v.data|
      invariant i <= |v.data| && copy == v.data[..i]
    {
      copy := copy + [v.data[i]];
      i := i + 1;
    }
    assert v.data[..i] == v.data;
    r := Vector(copy, n);
  }

  /** expand_capacity: reserve the grown capacity, so the capacity always increases. */
  method ExpandCapacity<T>(v: Vector<T>, min: nat) returns (r: Vector<T>)
    requires Valid(v)
    ensures Valid(r) && r.data == v.data
    ensures r.cap > v.cap && r.cap >= min && r.cap == GrownCapacity(v.cap, min)
  {
    r := Reserve(v, GrownCapacity(v.cap, min));
  }

  /**
   * push_back: grow only when full, to max(2 * capacity, 1), then
   * construct the value after the last element.
   */
  method PushBack<T>(v: Vector<T>, x: T) returns (r: Vector<T>)
    requires Valid(v)
    ensures Valid(r) && r.data == v.data + [x]
    ensures |v.data| < v.cap ==> r.cap == v.cap
    ensures |v.data| == v.cap ==> r.cap == Max(2 * v.cap, 1)
  {
    r := v;
    if |v.data| == v.cap {
      r := ExpandCapacity(v, 0);
    }
    r := Vector(r.data + [x], r.cap);
  }

  /** pop_back: nothing when empty, otherwise destroy the last element; capacity stays. */
  function PopBack<T>(v: Vector<T>): (r: Vector<T>)
    requires Valid(v)
    ensures Valid(r) && r.cap == v.cap
    ensures |v.data| == 0 ==> r == v
    ensures |v.data| > 0 ==> r.data + [v.data[|v.data| - 1]] == v.data
  {
    if |v.data| > 0 then Vector(v.data[..|v.data| - 1], v.cap) else v
  }

  /** at: the element at pos, or out_of_range exactly when pos is not below size. */
  function At<T>(v: Vector<T>, pos: nat): Result<T, Error>
  {
    CheckedAt(v.data, pos)
  }

  /**
   * emplace(pos, value): grow when full (to at least size + 1), shift
   * [offset, size) one slot back starting from the end, construct the
   * value at offset and return offset.
   */
  method Emplace<T>(v: Vector<T>, off: nat, x: T) returns (r: Vector<T>, it: nat)
    requires Valid(v) && off <= |v.data|
    ensures Valid(r) && it == off
    ensures r.data == v.data[..off] + [x] + v.data[off..]
    ensures |v.data| < v.cap ==> r.cap == v.cap
    ensures |v.data| == v.cap ==> r.cap == GrownCapacity(v.cap, |v.data| + 1)
  {
    var w := v;
    if |v.data| == v.cap {
      w := ExpandCapacity(v, |v.data| + 1);
    }
    var n := |v.data|;
    var buf := v.data + [x];
    var k := n;
    while k > off
      invariant off <= k <= n && |buf| == n + 1
      invariant forall j :: 0 <= j < k ==> buf[j] == v.data[j]
      invariant forall j :: k < j <= n ==> buf[j] == v.data[j - 1]
      invariant k < n ==> buf[k] == v.data[k]
    {
      buf := buf[k := buf[k - 1]];
      k := k - 1;
    }
    buf := buf[off := x];
    assert buf == v.data[..off] + [x] + v.data[off..];
    r := Vector(buf, w.cap);
    it := off;
  }

  /**
   * erase(first, last): an empty range changes nothing; otherwise move
   * [last, size) down onto first, destroy the tail and return first.
   * Capacity stays.
   */
  method EraseRange<T>(v: Vector<T>, first: nat, last: nat) returns (r: Vector<T>, it: nat)
    requires Valid(v) && first <= last <= |v.data|
    ensures Valid(r) && r.cap == v.cap && it == first
    ensures r.data == v.data[..first] + v.data[last..]
    ensures |r.data| == |v.data| - (last - first)
  {
    if first == last {
      assert v.data[..first] + v.data[last..] == v.data;
      return v, first;
    }
    var n := |v.data|;
    var gap := last - first;
    var buf := v.data;
    var i := first;
    while i + gap < n
      invariant first <= i <= n - gap && |buf| == n
      invariant forall j :: 0 <= j < first ==> buf[j] == v.data[j]
      invariant forall j :: first <= j < i ==> buf[j] == v.data[j + gap]
      invariant forall j :: i <= j < n ==> buf[j] == v.data[j]
    {
      buf := buf[i := buf[i + gap]];
      i := i + 1;
    }
    assert buf[..n - gap] == v.data[..first] + v.data[last..];
    r := Vector(buf[..n - gap], v.cap);
    it := first;
  }

  /**
   * resize(n, value): reserve exactly n when n exceeds the capacity, then
   * destroy the surplus or construct value in each new slot (resize(n)
   * uses T()).
   */
  method Resize<T>(v: Vector<T>, n: nat, fill: T) returns (r: Vector<T>)
    requires Valid(v)
    ensures Valid(r) && |r.data| == n && r.cap == Max(v.cap, n)
    ensures forall i :: 0 <= i < n && i < |v.data| ==> r.data[i] == v.data[i]
    ensures forall i :: |v.data| <= i < n ==> r.data[i] == fill
  {
    var w := v;
    if n > v.cap {
      w := Reserve(v, n);
    }
    var buf := w.data;
    if |buf| > n {
      buf := buf[..n];
    } else {
      while |buf| < n
        invariant |v.data| <= |buf| <= n && buf[..|v.data|] == v.data
        invariant forall i :: |v.data| <= i < |buf| ==> buf[i] == fill
        decreases n - |buf|
      {
        buf := buf + [fill];
      }
    }
    r := Vector(buf, w.cap);
  }

  /** clear: destroy every element; the capacity is kept. */
  function Clear<T>(v: Vector<T>): (r: Vector<T>)
    requires Valid(v)
    ensures Valid(r) && |r.data| == 0 && r.cap == v.cap
  {
    Vector([], v.cap)
  }

  /**
   * shrink_to_fit: when there is spare capacity, move the elements into
   * an allocation of exactly size_; the capacity then equals the size.
   */
  method ShrinkToFit<T>(v: Vector<T>) returns (r: Vector<T>)
    requires Valid(v)
    ensures Valid(r) && r.data == v.data && r.cap == |v.data|
  {
    if |v.data| == v.cap {
      return v;
    }
    var copy: seq<T> := [];
    var i := 0;
    while i < |v.data|
      invariant i <= |v.data| && copy == v.data[..i]
    {
      copy := copy + [v.data[i]];
      i := i + 1;
    }
    assert v.data[..i] == v.data;
    r := Vector(copy, |v.data|);
  }

  /** swap: exchange the buffers, sizes and capacities. */
  function Swap<T>(a: Vector<T>, b: Vector<T>): (r: (Vector<T>, Vector<T>))
    ensures r.0.data == b.data && r.0.cap == b.cap
    ensures r.1.data == a.data && r.1.cap == a.cap
  {
    (Vector(b.data, b.cap), Vector(a.data, a.cap))
  }

  /** Swapping twice restores both vectors, and validity travels with them. */
  lemma SwapInvolutive<T>(a: Vector<T>, b: Vector<T>)
    ensures Swap(Swap(a, b).0, Swap(a, b).1) == (a, b)
    ensures Valid(a) && Valid(b) ==> Valid(Swap(a, b).0) && Valid(Swap(a, b).1)
  {
  }

  /**
   * clear agrees with erasing the whole range begin()..end(): the same
   * elements (none) and the same capacity, after which at finds nothing.
   */
  method ClearIsEraseAll<T>(v: Vector<T>) returns (r: Vector<T>)
    requires Valid(v)
    ensures r == Clear(v)
    ensures forall i: nat :: At(r, i) == Failure(OutOfRange)
  {
    var it;
    r, it := EraseRange(v, 0, |v.data|);
  }

  /** Reading back: at finds each element where it is and nothing past the end. */
  lemma AtAgrees<T>(v: Vector<T>, x: T)
    ensures At(Vector(v.data + [x], v.cap + 1), |v.data|) == Success(x)
    ensures At(Vector(v.data + [x], v.cap + 1), |v.data| + 1) == Failure(OutOfRange)
    ensures forall i :: 0 <= i < |v.data| ==> At(Vector(v.data + [x], v.cap + 1), i) == At(v, i)
  {
  }
}
