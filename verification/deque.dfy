/**
 * Deque and DequeIterator of deque.h. A position is a pair (block, off):
 * the index of the block in the block map and the offset of cur from
 * that block's first slot. With buf slots per block its linear position
 * is block * buf + off. The deque itself is its element sequence
 * together with the position of head; element k lives at head + k and
 * tail is head + size.
 */
module Deques {
  import opened Wrappers

  datatype It = It(block: int, off: int)

  // ---------------------------------------------------------------------
  // block geometry

  /**
   * deque_buf_size: how many elements of elemSize bytes fit in a block of
   * blockSize bytes, and 1 when not even one does.
   */
  function BufSize(blockSize: nat, elemSize: nat): (b: nat)
    requires elemSize > 0
    ensures b >= 1
    ensures blockSize >= elemSize ==> b * elemSize <= blockSize < (b + 1) * elemSize
    ensures blockSize < elemSize ==> b == 1
  {
    if blockSize < elemSize then 1
    else
      DivBounds(blockSize, elemSize);
      blockSize / elemSize
  }

  /** The quotient of a division by e is the number of whole e's. */
  lemma DivBounds(x: nat, e: nat)
    requires e > 0
    ensures (x / e) * e <= x < (x / e + 1) * e
  {
    assert x == (x / e) * e + x % e;
  }

  /** Linear position. */
  function Lin(it: It, buf: nat): int
  {
    it.block * buf + it.off
  }

  /** cur lies inside its block: first <= cur < last. */
  predicate InBlock(it: It, buf: nat)
  {
    0 <= it.off < buf
  }

  // ---------------------------------------------------------------------
  // operator+=

  /**
   * The block step operator+= takes for an offset (measured from the
   * current block's first slot) that leaves the block, as written: for a
   * negative offset it is -((-offset - 1) / buf), one block short.
   */
  function BlockStepAsWritten(offset: int, buf: nat): int
    requires buf >= 1 && (offset < 0 || offset >= buf)
  {
    if offset > 0 then offset / buf else -((-offset - 1) / buf)
  }

  /** The block step with the missing -1 for negative offsets. */
  function BlockStep(offset: int, buf: nat): (k: int)
    requires buf >= 1 && (offset < 0 || offset >= buf)
    ensures k * buf <= offset < (k + 1) * buf
  {
    if offset > 0 then
      DivBounds(offset, buf);
      offset / buf
    else
      NegStep(-offset - 1, buf);
      -((-offset - 1) / buf) - 1
  }

  /** For m >= 0 the block holding offset -m - 1 is -(m / buf) - 1 blocks away. */
  lemma NegStep(m: nat, buf: nat)
    requires buf >= 1
    ensures (-(m / buf) - 1) * buf <= -(m as int) - 1 < (-(m / buf)) * buf
  {
    DivBounds(m, buf);
    var q := m / buf;
    assert (-q - 1) * buf == -(q * buf) - buf;
    assert (-q) * buf == -(q * buf);
  }

  /** operator+= as written: stay in the block when the new offset fits, else jump by BlockStepAsWritten. */
  function AdvanceAsWritten(it: It, n: int, buf: nat): (r: It)
    requires buf >= 1
    ensures Lin(r, buf) == Lin(it, buf) + n
  {
    var offset := n + it.off;
    if 0 <= offset < buf then It(it.block, it.off + n)
    else
      var k := BlockStepAsWritten(offset, buf);
      LinShift(it.block, k, offset, buf);
      It(it.block + k, offset - k * buf)
  }

  lemma LinShift(block: int, k: int, offset: int, buf: nat)
    ensures (block + k) * buf + (offset - k * buf) == block * buf + offset
  {
  }

  /**
   * operator+= corrected: the linear position moves by n and the result
   * lies inside its block, whatever the sign of n.
   */
  function Advance(it: It, n: int, buf: nat): (r: It)
    requires buf >= 1
    ensures Lin(r, buf) == Lin(it, buf) + n
    ensures InBlock(r, buf)
  {
    var offset := n + it.off;
    if 0 <= offset < buf then It(it.block, it.off + n)
    else
      var k := BlockStep(offset, buf);
      LinShift(it.block, k, offset, buf);
      It(it.block + k, offset - k * buf)
  }

  /**
   * With four slots per block, stepping back one from the first slot of
   * block 1 stays in block 1 at offset -1, outside the block; the
   * corrected step lands on the last slot of block 0.
   */
  lemma AdvanceAsWrittenLeavesBlock()
    ensures AdvanceAsWritten(It(1, 0), -1, 4) == It(1, -1)
    ensures !InBlock(AdvanceAsWritten(It(1, 0), -1, 4), 4)
    ensures Advance(It(1, 0), -1, 4) == It(0, 3)
  {
    assert BlockStepAsWritten(-1, 4) == 0;
    assert BlockStep(-1, 4) == -1;
  }

  /** The two agree whenever the offset does not go below the block's first slot. */
  lemma AdvanceAgrees(it: It, n: int, buf: nat)
    requires buf >= 1 && n + it.off >= 0
    ensures AdvanceAsWritten(it, n, buf) == Advance(it, n, buf)
  {
  }

  /** A position is determined by its linear position once it is inside its block. */
  lemma {:induction false} LinInjective(a: It, b: It, buf: nat)
    requires buf >= 1 && InBlock(a, buf) && InBlock(b, buf)
    ensures Lin(a, buf) == Lin(b, buf) <==> a == b
  {
    if Lin(a, buf) == Lin(b, buf) {
      if a.block < b.block {
        BlockGap(a.block, b.block, buf);
      } else if b.block < a.block {
        BlockGap(b.block, a.block, buf);
      }
    }
  }

  /** A later block starts at least one whole block further on. */
  lemma BlockGap(x: int, y: int, buf: nat)
    requires x < y
    ensures x * buf + buf <= y * buf
  {
    var d := y - x - 1;
    assert d >= 0;
    assert d * buf >= 0;
    assert y * buf == x * buf + d * buf + buf;
  }

  // ---------------------------------------------------------------------
  // distance and ordering

  /**
   * operator-(other): whole blocks strictly between the two, plus the
   * slots used in this block, plus the slots left in other's block.
   */
  function Distance(a: It, b: It, buf: nat): int
  {
    (a.block - b.block - 1) * buf + a.off + (buf - b.off)
  }

  /** The distance is the difference of linear positions. */
  lemma DistanceLinear(a: It, b: It, buf: nat)
    ensures Distance(a, b, buf) == Lin(a, buf) - Lin(b, buf)
  {
    assert (a.block - b.block - 1) * buf == a.block * buf - b.block * buf - buf;
  }

  /** (it + n) - it == n, and it - (it + n) == -n. */
  lemma DistanceAdvance(it: It, n: int, buf: nat)
    requires buf >= 1
    ensures Distance(Advance(it, n, buf), it, buf) == n
    ensures Distance(it, Advance(it, n, buf), buf) == -n
  {
    DistanceLinear(Advance(it, n, buf), it, buf);
    DistanceLinear(it, Advance(it, n, buf), buf);
  }

  /** operator<: an earlier block, or the same block and an earlier cur. */
  predicate Less(a: It, b: It)
  {
    a.block < b.block || (a.block == b.block && a.off < b.off)
  }

  /** operator>, operator<= and operator>=, each derived from operator<. */
  predicate Greater(a: It, b: It) { Less(b, a) }
  predicate LessEq(a: It, b: It) { !Less(b, a) }
  predicate GreaterEq(a: It, b: It) { !Less(a, b) }

  /** For positions inside their blocks, operator< is the order of linear positions. */
  lemma LessLinear(a: It, b: It, buf: nat)
    requires buf >= 1 && InBlock(a, buf) && InBlock(b, buf)
    ensures Less(a, b) <==> Lin(a, buf) < Lin(b, buf)
  {
    if a.block < b.block {
      BlockGap(a.block, b.block, buf);
    } else if b.block < a.block {
      BlockGap(b.block, a.block, buf);
    }
  }

  /** The derived comparisons are the matching comparisons of linear positions. */
  lemma DerivedLinear(a: It, b: It, buf: nat)
    requires buf >= 1 && InBlock(a, buf) && InBlock(b, buf)
    ensures Greater(a, b) <==> Lin(a, buf) > Lin(b, buf)
    ensures LessEq(a, b) <==> Lin(a, buf) <= Lin(b, buf)
    ensures GreaterEq(a, b) <==> Lin(a, buf) >= Lin(b, buf)
  {
    LessLinear(a, b, buf);
    LessLinear(b, a, buf);
  }

  // ---------------------------------------------------------------------
  // the container

  datatype Deque<T> = Deque(items: seq<T>, head: It, buf: nat)

  /** At least one slot per block, and head inside its block. */
  predicate Valid<T>(d: Deque<T>)
  {
    d.buf >= 1 && InBlock(d.head, d.buf)
  }

  /** tail: one past the last element. */
  function Tail<T>(d: Deque<T>): (t: It)
    requires Valid(d)
    ensures Lin(t, d.buf) == Lin(d.head, d.buf) + |d.items|
  {
    Advance(d.head, |d.items|, d.buf)
  }

  /** The position of element k: head + k. */
  function Slot<T>(d: Deque<T>, k: int): (p: It)
    requires Valid(d)
    ensures InBlock(p, d.buf) && Lin(p, d.buf) == Lin(d.head, d.buf) + k
  {
    Advance(d.head, k, d.buf)
  }

  /** size: tail - head, which is the number of elements. */
  function Size<T>(d: Deque<T>): (n: int)
    requires Valid(d)
    ensures n == |d.items|
  {
    DistanceLinear(Tail(d), d.head, d.buf);
    Distance(Tail(d), d.head, d.buf)
  }

  /** empty: tail == head, exactly when there are no elements. */
  function Empty<T>(d: Deque<T>): (b: bool)
    requires Valid(d)
    ensures b <==> |d.items| == 0
  {
    LinInjective(Tail(d), d.head, d.buf);
    Tail(d) == d.head
  }

  /**
   * push_back (and emplace_back, which constructs in place): the value
   * goes into tail's slot and tail moves on by one; head stays.
   */
  function PushBack<T>(d: Deque<T>, v: T): (r: Deque<T>)
    requires Valid(d)
    ensures Valid(r) && r.head == d.head && r.buf == d.buf
    ensures Size(r) == Size(d) + 1
    ensures Back(r) == v && r.items[..|d.items|] == d.items
    ensures Slot(r, Size(d)) == Tail(d)
  {
    LinInjective(Slot(Deque(d.items + [v], d.head, d.buf), |d.items|), Tail(d), d.buf);
    Deque(d.items + [v], d.head, d.buf)
  }

  /**
   * push_front (and emplace_front): head steps back by one (operator--,
   * which does move to the previous block) and the value goes there.
   */
  function PushFront<T>(d: Deque<T>, v: T): (r: Deque<T>)
    requires Valid(d)
    ensures Valid(r) && r.buf == d.buf
    ensures Lin(r.head, r.buf) == Lin(d.head, d.buf) - 1
    ensures Size(r) == Size(d) + 1
    ensures Front(r) == v && r.items[1..] == d.items
    ensures Tail(r) == Tail(d)
  {
    var r := Deque([v] + d.items, Advance(d.head, -1, d.buf), d.buf);
    LinInjective(Tail(r), Tail(d), d.buf);
    r
  }

  /** pop_front: nothing when head == tail; otherwise the first element goes and head moves on. */
  function PopFront<T>(d: Deque<T>): (r: Deque<T>)
    requires Valid(d)
    ensures Valid(r) && r.buf == d.buf
    ensures Empty(d) ==> r == d
    ensures !Empty(d) ==> Size(r) == Size(d) - 1 && [Front(d)] + r.items == d.items
    ensures !Empty(d) ==> Lin(r.head, r.buf) == Lin(d.head, d.buf) + 1
  {
    if |d.items| == 0 then d
    else Deque(d.items[1..], Advance(d.head, 1, d.buf), d.buf)
  }

  /** pop_back: nothing when head == tail; otherwise the last element goes and head stays. */
  function PopBack<T>(d: Deque<T>): (r: Deque<T>)
    requires Valid(d)
    ensures Valid(r) && r.buf == d.buf && r.head == d.head
    ensures Empty(d) ==> r == d
    ensures !Empty(d) ==> Size(r) == Size(d) - 1 && r.items + [Back(d)] == d.items
  {
    if |d.items| == 0 then d
    else Deque(d.items[..|d.items| - 1], d.head, d.buf)
  }

  /** Pushing at one end and popping at the same end gives the deque back. */
  lemma PushPop<T>(d: Deque<T>, v: T)
    requires Valid(d)
    ensures PopBack(PushBack(d, v)) == d
    ensures PopFront(PushFront(d, v)).items == d.items
    ensures Lin(PopFront(PushFront(d, v)).head, d.buf) == Lin(d.head, d.buf)
  {
    assert (d.items + [v])[..|d.items|] == d.items;
    assert ([v] + d.items)[1..] == d.items;
  }

  /** front: *head. The deque must not be empty. */
  function Front<T>(d: Deque<T>): (v: T)
    requires Valid(d) && |d.items| > 0
    ensures v in d.items && Index(d, 0) == Success(v)
  {
    d.items[0]
  }

  /**
   * back: *(tail - 1). With the corrected operator+= the slot tail - 1 is
   * the slot of the last element.
   */
  function Back<T>(d: Deque<T>): (v: T)
    requires Valid(d) && |d.items| > 0
    ensures v in d.items && Index(d, |d.items| - 1) == Success(v)
  {
    d.items[|d.items| - 1]
  }

  /** The slot back() reads as written: tail stepped back by the as-written operator+=. */
  function BackSlotAsWritten<T>(d: Deque<T>): (p: It)
    requires Valid(d)
    ensures Lin(p, d.buf) == Lin(Tail(d), d.buf) - 1
  {
    AdvanceAsWritten(Tail(d), -1, d.buf)
  }

  /** The slot back() reads with the corrected operator+=: that of the last element. */
  lemma BackSlot<T>(d: Deque<T>)
    requires Valid(d) && |d.items| > 0
    ensures Advance(Tail(d), -1, d.buf) == Slot(d, |d.items| - 1)
  {
    LinInjective(Advance(Tail(d), -1, d.buf), Slot(d, |d.items| - 1), d.buf);
  }

  /**
   * When the model's tail is on the first slot of its block, the
   * as-written back() reads offset -1 of that block, which is not the slot
   * of the last element (nor any slot inside a block). The source's tail
   * is not always there when the model's is: see BackAsWrittenAfterPushFronts.
   */
  lemma BackAsWrittenOffBlock<T>(d: Deque<T>)
    requires Valid(d) && |d.items| > 0 && Tail(d).off == 0
    ensures BackSlotAsWritten(d) == It(Tail(d).block, -1)
    ensures !InBlock(BackSlotAsWritten(d), d.buf)
    ensures BackSlotAsWritten(d) != Slot(d, |d.items| - 1)
  {
    assert BlockStepAsWritten(-1, d.buf) == 0;
  }

  /** push_front of each value of vs in turn. */
  function PushFronts<T>(d: Deque<T>, vs: seq<T>): (r: Deque<T>)
    requires Valid(d)
    ensures Valid(r) && r.buf == d.buf && Tail(r) == Tail(d)
    ensures |r.items| == |d.items| + |vs|
    decreases |vs|
  {
    if |vs| == 0 then d else PushFronts(PushFront(d, vs[0]), vs[1..])
  }

  /**
   * initialize() puts head and tail on the first slot of block 1, and
   * emplace_front never moves tail; so after any non-empty run of
   * push_front on a fresh deque the source's tail is still on the first
   * slot of its block, and back() as written reads offset -1 there,
   * outside every block, instead of the slot of the last element.
   */
  lemma BackAsWrittenAfterPushFronts<T>(buf: nat, vs: seq<T>)
    requires buf >= 1 && |vs| > 0
    ensures var d := PushFronts(Deque([], It(1, 0), buf), vs);
      Tail(d) == It(1, 0) &&
      BackSlotAsWritten(d) == It(1, -1) && !InBlock(BackSlotAsWritten(d), buf) &&
      BackSlotAsWritten(d) != Slot(d, |d.items| - 1)
  {
    var e := Deque([], It(1, 0), buf);
    assert Tail(e) == It(1, 0);
    BackAsWrittenOffBlock(PushFronts(e, vs));
  }

  /** Step of BackAsWrittenMisses: push_front(7) on the fresh deque with four slots per block. */
  lemma FreshPushFront()
    ensures PushFront(Deque([], It(1, 0), 4), 7) == Deque([7], It(0, 3), 4)
  {
    assert Advance(It(1, 0), -1, 4) == It(0, 3);
    assert [7] + [] == [7];
  }

  /** Step of BackAsWrittenMisses: tail of that one-element deque. */
  lemma FreshTail()
    ensures Tail(Deque([7], It(0, 3), 4)) == It(1, 0)
  {
  }

  /** Step of BackAsWrittenMisses: the slot holding its element. */
  lemma FreshHead()
    ensures Slot(Deque([7], It(0, 3), 4), 0) == It(0, 3)
  {
  }

  /**
   * On a fresh deque (head = tail = first slot of block 1) with four
   * slots per block, push_front(7) puts 7 in the last slot of block 0 and
   * leaves tail at the first slot of block 1; back() then reads offset -1
   * of block 1, outside every block, instead of the slot holding 7.
   */
  lemma BackAsWrittenMisses()
    ensures PushFront(Deque([], It(1, 0), 4), 7) == Deque([7], It(0, 3), 4)
    ensures Slot(Deque([7], It(0, 3), 4), 0) == It(0, 3)
    ensures BackSlotAsWritten(Deque([7], It(0, 3), 4)) == It(1, -1)
    ensures !InBlock(BackSlotAsWritten(Deque([7], It(0, 3), 4)), 4)
  {
    FreshPushFront();
    FreshTail();
    FreshHead();
    AdvanceAsWrittenLeavesBlock();
  }

  /**
   * operator[] and at: out_of_range exactly when index is not below
   * size; otherwise the index-th element, the one Slot places at
   * head + index.
   */
  function Index<T>(d: Deque<T>, index: nat): (r: Result<T, Error>)
    requires Valid(d)
    ensures r.Failure? <==> index >= Size(d)
    ensures r.Success? ==> r.value == d.items[index]
  {
    CheckedAt(d.items, index)
  }

  /**
   * erase(where) as written, with where given as its index w: end()
   * comes back unchanged; otherwise the element goes, the shorter side
   * shifts over it (the front side when w < size / 2, followed by
   * pop_front; the back side otherwise, followed by pop_back), and the
   * iterator returned is where itself, the slot that was passed in.
   */
  function EraseAsWritten<T>(d: Deque<T>, w: nat): (r: (Deque<T>, It))
    requires Valid(d) && w <= |d.items|
    ensures Valid(r.0) && r.0.buf == d.buf
    ensures w == |d.items| ==> r.0 == d && r.1 == Tail(d)
    ensures w < |d.items| ==> r.0.items == d.items[..w] + d.items[w + 1..]
    ensures r.1 == Slot(d, w)
  {
    if w == |d.items| then
      LinInjective(Slot(d, w), Tail(d), d.buf);
      (d, Tail(d))
    else if w < |d.items| / 2 then
      (Deque(d.items[..w] + d.items[w + 1..], Advance(d.head, 1, d.buf), d.buf), Slot(d, w))
    else
      (Deque(d.items[..w] + d.items[w + 1..], d.head, d.buf), Slot(d, w))
  }

  /**
   * In the front half, pop_front has moved head on by one, so the slot
   * returned sits at index w - 1 of the result instead of w: it holds the
   * element before the erased one, and for w == 0 it lies before begin().
   * In [1, 2, 3, 4, 5], erasing index 1 returns an iterator to 1, not to 3.
   */
  lemma EraseAsWrittenPointsBack<T>(d: Deque<T>, w: nat)
    requires Valid(d) && w < |d.items| / 2
    ensures Distance(EraseAsWritten(d, w).1, EraseAsWritten(d, w).0.head, d.buf) == w - 1
    ensures w > 0 ==> Index(EraseAsWritten(d, w).0, w - 1) == Success(d.items[w - 1])
  {
    var r := EraseAsWritten(d, w);
    DistanceLinear(r.1, r.0.head, d.buf);
  }

  /**
   * erase(where) corrected: the same removal, returning the iterator at
   * index w of the result, which is the element after the erased one (or
   * end()).
   */
  function Erase<T>(d: Deque<T>, w: nat): (r: (Deque<T>, It))
    requires Valid(d) && w <= |d.items|
    ensures Valid(r.0) && r.0.buf == d.buf
    ensures w == |d.items| ==> r.0 == d && r.1 == Tail(d)
    ensures w < |d.items| ==> r.0.items == d.items[..w] + d.items[w + 1..] && Size(r.0) == Size(d) - 1
    ensures Distance(r.1, r.0.head, d.buf) == w
    ensures w < |d.items| - 1 ==> Index(r.0, w) == Success(d.items[w + 1])
  {
    var e := EraseAsWritten(d, w).0;
    DistanceAdvance(e.head, w, d.buf);
    if w == |d.items| then
      LinInjective(Slot(d, w), Tail(d), d.buf);
      (d, Tail(d))
    else (e, Slot(e, w))
  }
}
