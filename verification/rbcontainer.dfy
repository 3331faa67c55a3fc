/**
 * Rb_tree as a container: the header (root, leftmost, rightmost and
 * node_count) together with insertion, erasure, clear, swap, extract and
 * reinsertion. Positions are in-order indices, Size(root) being end();
 * a header link to the header itself (the empty case) is None.
 */
module RbContainer {
  import opened Wrappers
  import opened RbTree
  import opened RbInsert
  import opened RbErase
  import opened RbLookup
  import opened RbPolicy
  import NodeHandle

  datatype Header<V> = Header(root: Tree<V>, leftmost: Option<Entry<V>>, rightmost: Option<Entry<V>>, count: nat)

  function First<V>(s: seq<Entry<V>>): Option<Entry<V>>
  {
    if s == [] then None else Some(s[0])
  }

  function Last<V>(s: seq<Entry<V>>): Option<Entry<V>>
  {
    if s == [] then None else Some(s[|s| - 1])
  }

  /**
   * The container invariant: a valid red-black tree whose header caches
   * its first and last entries and its size.
   */
  ghost predicate Inv<V>(m: Header<V>)
  {
    Valid(m.root) && m.count == Size(m.root) &&
    m.leftmost == First(Elems(m.root)) && m.rightmost == Last(Elems(m.root))
  }

  /** Rb_tree_header::M_reset: no root, both extremes at the header, no nodes. */
  function Reset<V>(): (m: Header<V>)
    ensures Inv(m) && Elems(m.root) == []
  {
    Header(Leaf, None, None, 0)
  }

  /** The subtree rooted at the node in position i. */
  function NodeAt<V>(t: Tree<V>, i: nat): (z: Tree<V>)
    requires i < Size(t)
    ensures z.Node? && Size(z.left) <= i && i + Size(z.right) < Size(t)
  {
    var l := t.left;
    if i < Size(l) then NodeAt(l, i)
    else if i == Size(l) then t
    else
      var z := NodeAt(t.right, i - Size(l) - 1);
      z
  }

  /**
   * The node in position i holds the i-th entry, and its in-order
   * neighbours inside its own subtree are the neighbouring entries of the
   * whole tree.
   */
  ghost predicate AtFacts<V>(t: Tree<V>, i: nat)
    requires i < Size(t)
  {
    var z := NodeAt(t, i);
    Entry(z.key, z.val) == Elems(t)[i] &&
    (z.right.Node? ==> Minimum(z.right) == Elems(t)[i + 1]) &&
    (z.left.Node? ==> Maximum(z.left) == Elems(t)[i - 1])
  }

  lemma {:induction false} NodeAtEntry<V>(t: Tree<V>, i: nat)
    requires i < Size(t)
    ensures AtFacts(t, i)
  {
    if i < Size(t.left) {
      NodeAtEntry(t.left, i);
      AtLeft(t, i);
    } else if i > Size(t.left) {
      NodeAtEntry(t.right, i - Size(t.left) - 1);
      AtRight(t, i);
    } else {
      AtRoot(t, i);
    }
  }

  lemma AtLeft<V>(t: Tree<V>, i: nat)
    requires t.Node? && i < Size(t.left) && AtFacts(t.left, i)
    ensures AtFacts(t, i)
  {
    var z := NodeAt(t.left, i);
    assert NodeAt(t, i) == z;
    LeftIndex(t, i);
    if z.right.Node? { LeftIndex(t, i + 1); }
    if z.left.Node? { LeftIndex(t, i - 1); }
  }

  lemma AtRight<V>(t: Tree<V>, i: nat)
    requires t.Node? && Size(t.left) < i < Size(t) && AtFacts(t.right, i - Size(t.left) - 1)
    ensures AtFacts(t, i)
  {
    var j := i - Size(t.left) - 1;
    var z := NodeAt(t.right, j);
    NodeAtRight(t, i, j);
    RightIndex(t, i, j);
    if z.right.Node? { RightIndex(t, i + 1, j + 1); }
    if z.left.Node? { RightIndex(t, i - 1, j - 1); }
  }

  lemma NodeAtRight<V>(t: Tree<V>, i: nat, j: nat)
    requires t.Node? && Size(t.left) < i < Size(t) && j == i - Size(t.left) - 1
    ensures NodeAt(t, i) == NodeAt(t.right, j)
  {
  }

  /** Position k of the right subtree is position Size(left) + 1 + k of the node. */
  lemma RightIndex<V>(t: Tree<V>, i: nat, k: nat)
    requires t.Node? && k < Size(t.right) && i == Size(t.left) + 1 + k
    ensures Elems(t)[i] == Elems(t.right)[k]
  {
    JoinIndexRight(Elems(t.left), Entry(t.key, t.val), Elems(t.right), k);
  }

  lemma AtRoot<V>(t: Tree<V>, i: nat)
    requires t.Node? && i == Size(t.left)
    ensures AtFacts(t, i)
  {
    assert NodeAt(t, i) == t;
    JoinIndexMiddle(Elems(t.left), Entry(t.key, t.val), Elems(t.right));
    if t.right.Node? { RightIndex(t, i + 1, 0); }
    if t.left.Node? { LeftIndex(t, i - 1); }
  }

  /** Position k of the left subtree is position k of the node. */
  lemma LeftIndex<V>(t: Tree<V>, k: nat)
    requires t.Node? && k < Size(t.left)
    ensures Elems(t)[k] == Elems(t.left)[k]
  {
    JoinIndexLeft(Elems(t.left), Entry(t.key, t.val), Elems(t.right), k);
  }

  lemma JoinIndexMiddle<T>(x: seq<T>, m: T, y: seq<T>)
    ensures (x + [m] + y)[|x|] == m
  {
  }

  lemma JoinIndexLeft<T>(x: seq<T>, m: T, y: seq<T>, k: nat)
    requires k < |x|
    ensures (x + [m] + y)[k] == x[k]
  {
  }

  lemma JoinIndexRight<T>(x: seq<T>, m: T, y: seq<T>, k: nat)
    requires k < |y|
    ensures (x + [m] + y)[|x| + 1 + k] == y[k]
  {
  }


  /**
   * The parent of the node in position i, None for the root (whose parent
   * is the header).
   */
  function ParentAt<V>(t: Tree<V>, i: nat): Option<Entry<V>>
    requires i < Size(t)
  {
    var l := t.left;
    if i == Size(l) then None
    else
      var p := if i < Size(l) then ParentAt(l, i) else ParentAt(t.right, i - Size(l) - 1);
      if p.None? then Some(Entry(t.key, t.val)) else p
  }

  /** The first node without a right child: its parent is the second entry. */
  lemma {:induction false} FirstParent<V>(t: Tree<V>)
    requires t.Node? && NodeAt(t, 0).right.Leaf?
    ensures ParentAt(t, 0) == if Size(t) > 1 then Some(Elems(t)[1]) else None
  {
    var l := t.left;
    if l.Node? {
      FirstParent(l);
      assert Elems(t) == Elems(l) + [Entry(t.key, t.val)] + Elems(t.right);
      if Size(l) > 1 {
        assert Elems(t)[1] == Elems(l)[1];
      }
    }
  }

  /** The last node without a left child: its parent is the second-to-last entry. */
  lemma {:induction false} LastParent<V>(t: Tree<V>)
    requires t.Node? && NodeAt(t, Size(t) - 1).left.Leaf?
    ensures ParentAt(t, Size(t) - 1) == if Size(t) > 1 then Some(Elems(t)[Size(t) - 2]) else None
  {
    var r := t.right;
    var n := Size(t);
    if r.Node? {
      assert NodeAt(t, n - 1) == NodeAt(r, Size(r) - 1);
      LastParent(r);
      assert Elems(t) == Elems(t.left) + [Entry(t.key, t.val)] + Elems(r);
      if Size(r) > 1 {
        assert Elems(t)[n - 2] == Elems(r)[Size(r) - 2];
      }
    }
  }

  /**
   * M_insert / M_insert_node / M_insert_lower: link a red node at gap g
   * (Rb_tree_insert_and_rebalance), moving leftmost or rightmost to it
   * when it becomes the first or last node, and count one more node.
   */
  function LinkAt<V>(m: Header<V>, g: nat, e: Entry<V>): (r: Header<V>)
    requires g <= Size(m.root)
    ensures Elems(r.root) == Elems(m.root)[..g] + [e] + Elems(m.root)[g..]
  {
    Header(InsertAt(m.root, g, e),
           if g == 0 then Some(e) else m.leftmost,
           if g == Size(m.root) then Some(e) else m.rightmost,
           m.count + 1)
  }

  /** Linking at a gap that fits the key keeps the container invariant. */
  lemma LinkAtInv<V>(m: Header<V>, g: nat, e: Entry<V>)
    requires Inv(m) && FitsAt(Elems(m.root), g, e.key)
    ensures Inv(LinkAt(m, g, e))
  {
    var s := Elems(m.root);
    SortedInsert(s, g, e);
    InsertAtValid(m.root, g, e);
    InsertEnds(s, g, e);
  }

  /** The ends of a sequence after inserting e at gap g. */
  lemma InsertEnds<E>(s: seq<E>, g: nat, e: E)
    requires g <= |s|
    ensures var u := s[..g] + [e] + s[g..];
      u[0] == (if g == 0 then e else s[0]) && u[|u| - 1] == (if g == |s| then e else s[|s| - 1])
  {
  }

  /**
   * M_erase_aux(position) with Rb_tree_rebalance_for_erase's header
   * upkeep: when the erased node was leftmost its replacement is its
   * parent (no right child) or the minimum of its right subtree, and
   * symmetrically for rightmost; one node fewer.
   */
  function EraseAux<V>(m: Header<V>, i: nat): (r: Header<V>)
    requires Inv(m) && i < Size(m.root)
    ensures Elems(r.root) == Elems(m.root)[..i] + Elems(m.root)[i + 1..]
  {
    var t := m.root;
    var n := Size(t);
    var z := NodeAt(t, i);
    Header(EraseAt(t, i),
           if i == 0 then (if z.right.Leaf? then ParentAt(t, i) else Some(Minimum(z.right))) else m.leftmost,
           if i == n - 1 then (if z.left.Leaf? then ParentAt(t, i) else Some(Maximum(z.left))) else m.rightmost,
           m.count - 1)
  }

  /** Erasing any position keeps the container invariant. */
  lemma EraseAuxInv<V>(m: Header<V>, i: nat)
    requires Inv(m) && i < Size(m.root)
    ensures Inv(EraseAux(m, i))
  {
    EraseAtValid(m.root, i);
    EraseAuxLeftmost(m, i);
    EraseAuxRightmost(m, i);
  }

  lemma EraseAuxLeftmost<V>(m: Header<V>, i: nat)
    requires Inv(m) && i < Size(m.root)
    ensures EraseAux(m, i).leftmost == First(Elems(m.root)[..i] + Elems(m.root)[i + 1..])
  {
    var t := m.root;
    var s := Elems(t);
    var u := s[..i] + s[i + 1..];
    if i == 0 {
      NodeAtEntry(t, 0);
      if NodeAt(t, 0).right.Leaf? { FirstParent(t); }
      if |s| > 1 { assert u[0] == s[1]; }
    } else {
      assert u[0] == s[0];
    }
  }

  lemma EraseAuxRightmost<V>(m: Header<V>, i: nat)
    requires Inv(m) && i < Size(m.root)
    ensures EraseAux(m, i).rightmost == Last(Elems(m.root)[..i] + Elems(m.root)[i + 1..])
  {
    var t := m.root;
    var s := Elems(t);
    var n := |s|;
    var u := s[..i] + s[i + 1..];
    if i == n - 1 {
      NodeAtEntry(t, i);
      if NodeAt(t, i).left.Leaf? { LastParent(t); }
      if n > 1 { assert u[|u| - 1] == s[n - 2]; }
    } else {
      assert u[|u| - 1] == s[n - 1];
    }
  }

  /**
   * erase(position): the returned iterator is the erased node's successor,
   * which now sits at the same index.
   */
  function Erase<V>(m: Header<V>, i: nat): (r: (Header<V>, nat))
    requires Inv(m) && i < Size(m.root)
    ensures Inv(r.0) && r.1 <= Size(r.0.root)
    ensures Size(r.0.root) == Size(m.root) - 1
    ensures r.1 < Size(r.0.root) <==> i + 1 < Size(m.root)
    ensures i + 1 < Size(m.root) ==> Elems(r.0.root)[r.1] == Elems(m.root)[i + 1]
  {
    EraseAuxInv(m, i);
    (EraseAux(m, i), i)
  }

  /** Erase n consecutive positions starting at i, one at a time. */
  function EraseRun<V>(m: Header<V>, i: nat, n: nat): (r: Header<V>)
    requires Inv(m) && i + n <= Size(m.root)
    ensures Inv(r)
    ensures Elems(r.root) == Elems(m.root)[..i] + Elems(m.root)[i + n..]
    decreases n
  {
    if n == 0 then m
    else
      EraseAuxInv(m, i);
      var r := EraseRun(EraseAux(m, i), i, n - 1);
      CutAgain(Elems(m.root), i, n);
      r
  }

  /** Cutting one position at i and then n - 1 more cuts n positions at i. */
  lemma CutAgain<E>(s: seq<E>, i: nat, n: nat)
    requires 0 < n && i + n <= |s|
    ensures var u := s[..i] + s[i + 1..]; u[..i] + u[i + n - 1..] == s[..i] + s[i + n..]
  {
    var u := s[..i] + s[i + 1..];
    assert u[..i] == s[..i];
    assert u[i + n - 1..] == s[i + n..];
  }

  /** clear(): every node dropped, then M_reset. */
  function Clear<V>(m: Header<V>): (r: Header<V>)
    ensures Inv(r) && Elems(r.root) == []
  {
    Reset()
  }

  /**
   * M_erase_aux(first, last) and erase(first, last): the whole range is
   * cleared at once, anything else erased position by position; the
   * returned iterator is last, which now sits at first.
   */
  function EraseRange<V>(m: Header<V>, first: nat, last: nat): (r: (Header<V>, nat))
    requires Inv(m) && first <= last <= Size(m.root)
    ensures Inv(r.0) && r.1 == first
    ensures Elems(r.0.root) == Elems(m.root)[..first] + Elems(m.root)[last..]
  {
    if first == 0 && last == Size(m.root) then
      ClearRange(m);
      (Clear(m), first)
    else
      RunRange(m, first, last);
      (EraseRun(m, first, last - first), first)
  }

  /** The whole range: clearing leaves what erasing every position would. */
  lemma ClearRange<V>(m: Header<V>)
    ensures Inv(Clear(m)) && Elems(Clear(m).root) == Elems(m.root)[..0] + Elems(m.root)[Size(m.root)..]
  {
    CutAll(Elems(m.root));
  }

  /** Any other range: erasing last - first positions at first. */
  lemma RunRange<V>(m: Header<V>, first: nat, last: nat)
    requires Inv(m) && first <= last <= Size(m.root)
    ensures Inv(EraseRun(m, first, last - first))
    ensures Elems(EraseRun(m, first, last - first).root) == Elems(m.root)[..first] + Elems(m.root)[last..]
  {
  }

  /** Cutting from the front to the back leaves nothing. */
  lemma CutAll<E>(s: seq<E>)
    ensures s[..0] + s[|s|..] == []
  {
  }

  /** Entries whose key differs from k, in order. */
  function Drop<V>(s: seq<Entry<V>>, k: int): (u: seq<Entry<V>>)
    ensures |u| <= |s|
  {
    if s == [] then [] else (if s[0].key == k then [] else [s[0]]) + Drop(s[1..], k)
  }

  lemma {:induction false} DropAppend<V>(a: seq<Entry<V>>, b: seq<Entry<V>>, k: int)
    ensures Drop(a + b, k) == Drop(a, k) + Drop(b, k)
  {
    if a == [] {
      assert a + b == b;
    } else {
      assert (a + b)[1..] == a[1..] + b;
      DropAppend(a[1..], b, k);
    }
  }

  /** Drop keeps a run without key k and removes a run of key k. */
  lemma {:induction false} DropUniform<V>(s: seq<Entry<V>>, k: int, all: bool)
    requires forall j :: 0 <= j < |s| ==> (s[j].key == k) == all
    ensures Drop(s, k) == if all then [] else s
  {
    if s != [] {
      DropUniform(s[1..], k, all);
    }
  }

  /**
   * erase(k): erase the equal range of k; the answer is how many nodes
   * went, size() before minus size() after.
   */
  function EraseKey<V>(m: Header<V>, k: int): (r: (Header<V>, nat))
    requires Inv(m)
    ensures Inv(r.0)
  {
    var p := EqualRange(m.root, k);
    var e := EraseRange(m, p.0, p.1).0;
    (e, m.count - e.count)
  }

  /** erase(k) removes exactly the entries with key k and keeps the others in order. */
  lemma EraseKeyDrops<V>(m: Header<V>, k: int)
    requires Inv(m)
    ensures Elems(EraseKey(m, k).0.root) == Drop(Elems(m.root), k)
  {
    var s := Elems(m.root);
    EqualRangeBounds(m.root, k);
    LowerBoundCorrect(m.root, k);
    UpperBoundCorrect(m.root, k);
    var lo, hi := LowerBound(m.root, k), UpperBound(m.root, k);
    assert Elems(EraseKey(m, k).0.root) == s[..lo] + s[hi..];
    DropRange(s, k, lo, hi);
  }

  /** In a sorted sequence, dropping key k cuts out the equal range. */
  lemma DropRange<V>(s: seq<Entry<V>>, k: int, lo: nat, hi: nat)
    requires IsLowerBound(s, k, lo) && IsUpperBound(s, k, hi) && lo <= hi
    ensures Drop(s, k) == s[..lo] + s[hi..]
  {
    var a, b, c := s[..lo], s[lo..hi], s[hi..];
    SplitThree(s, lo, hi);
    DropAppend(a + b, c, k);
    DropAppend(a, b, k);
    DropBelow(s, k, lo);
    DropEqual(s, k, lo, hi);
    DropAbove(s, k, hi);
    assert Drop(s, k) == a + [] + c;
    assert a + [] == a;
  }

  lemma SplitThree<T>(s: seq<T>, lo: nat, hi: nat)
    requires lo <= hi <= |s|
    ensures s == s[..lo] + s[lo..hi] + s[hi..]
  {
  }

  /** Below the lower bound no key is k. */
  lemma DropBelow<V>(s: seq<Entry<V>>, k: int, lo: nat)
    requires IsLowerBound(s, k, lo)
    ensures Drop(s[..lo], k) == s[..lo]
  {
    var a := s[..lo];
    assert forall j :: 0 <= j < |a| ==> a[j] == s[j];
    DropUniform(a, k, false);
  }

  /** Between the bounds every key is k. */
  lemma DropEqual<V>(s: seq<Entry<V>>, k: int, lo: nat, hi: nat)
    requires IsLowerBound(s, k, lo) && IsUpperBound(s, k, hi) && lo <= hi
    ensures Drop(s[lo..hi], k) == []
  {
    var b := s[lo..hi];
    assert forall j :: 0 <= j < |b| ==> b[j] == s[lo + j];
    DropUniform(b, k, true);
  }

  /** From the upper bound on no key is k. */
  lemma DropAbove<V>(s: seq<Entry<V>>, k: int, hi: nat)
    requires IsUpperBound(s, k, hi)
    ensures Drop(s[hi..], k) == s[hi..]
  {
    var c := s[hi..];
    assert forall j :: 0 <= j < |c| ==> c[j] == s[hi + j];
    DropUniform(c, k, false);
  }

  /** erase(k) reports how many entries had key k. */
  lemma EraseKeyCounts<V>(m: Header<V>, k: int)
    requires Inv(m)
    ensures EraseKey(m, k).1 == CountIn(Elems(m.root), k, k)
  {
    EqualRangeBounds(m.root, k);
    LowerBoundCorrect(m.root, k);
    UpperBoundCorrect(m.root, k);
    CountInBetween(Elems(m.root), k, k, LowerBound(m.root, k), UpperBound(m.root, k));
  }

  /**
   * swap: an empty side takes over the other side's nodes (M_move_data,
   * which resets the giver); otherwise root, extremes and counts trade.
   */
  function Swap<V>(a: Header<V>, b: Header<V>): (r: (Header<V>, Header<V>))
  {
    if a.root.Leaf? then
      (if b.root.Node? then (b, Reset()) else (a, b))
    else if b.root.Leaf? then
      (Reset(), a)
    else
      (b, a)
  }

  /** Whatever branch it takes, swap exchanges two valid containers. */
  lemma SwapExchanges<V>(a: Header<V>, b: Header<V>)
    requires Inv(a) && Inv(b)
    ensures Swap(a, b) == (b, a)
  {
  }

  /**
   * _M_insert_unique and _M_emplace_unique: insert at the gap the unique
   * finder offers, or return the position of the equivalent entry.
   * Emplacing builds the node first and drops it on refusal, which
   * changes nothing observable here.
   */
  function InsertUnique<V>(m: Header<V>, e: Entry<V>): (r: (Header<V>, nat, bool))
    ensures r.1 < Size(r.0.root)
  {
    match GetInsertUniquePos(m.root, e.key)
    case Slot(g) => (LinkAt(m, g, e), g, true)
    case Taken(j) => (m, j, false)
  }

  /**
   * In a unique-key container, insertion happens exactly when no entry
   * has the key; the new entry lands at the returned position and the
   * rest keep their order, while a refusal changes nothing and points at
   * the entry with that key.
   */
  lemma InsertUniqueCorrect<V>(m: Header<V>, e: Entry<V>)
    requires Inv(m) && UniqueKeys(Elems(m.root))
    ensures var (r, i, ins) := InsertUnique(m, e);
      Inv(r) && UniqueKeys(Elems(r.root)) && Elems(r.root)[i].key == e.key &&
      (ins <==> forall j :: 0 <= j < Size(m.root) ==> Elems(m.root)[j].key != e.key) &&
      (ins ==> Elems(r.root) == Elems(m.root)[..i] + [e] + Elems(m.root)[i..]) &&
      (!ins ==> r == m)
  {
    var s := Elems(m.root);
    UniquePosFree(m.root, e.key);
    UniquePosFits(m.root, e.key);
    match GetInsertUniquePos(m.root, e.key)
    case Slot(g) =>
      LinkAtInv(m, g, e);
      UniqueInsert(s, g, e);
      assert (s[..g] + [e] + s[g..])[g] == e;
    case Taken(j) =>
  }

  /**
   * _M_insert_equal and _M_emplace_equal: insert at the gap of the
   * upper-bound descent (M_get_insert_equal_pos).
   */
  function InsertEqual<V>(m: Header<V>, e: Entry<V>): (r: (Header<V>, nat))
    ensures r.1 < Size(r.0.root) && Elems(r.0.root)[r.1] == e
  {
    var g := UpperBound(m.root, e.key);
    var r := LinkAt(m, g, e);
    assert Elems(r.root)[g] == e;
    (r, g)
  }

  /**
   * Equal insertion always inserts, keeps the invariant, and places the
   * new entry after every entry with the same key.
   */
  lemma InsertEqualCorrect<V>(m: Header<V>, e: Entry<V>)
    requires Inv(m)
    ensures var (r, i) := InsertEqual(m, e);
      Inv(r) && Elems(r.root) == Elems(m.root)[..i] + [e] + Elems(m.root)[i..] &&
      IsUpperBound(Elems(m.root), e.key, i)
  {
    UpperBoundCorrect(m.root, e.key);
    LinkAtInv(m, UpperBound(m.root, e.key), e);
  }

  /**
   * _M_insert_unique_(pos, v) and _M_emplace_hint_unique: the hinted
   * unique finder decides; on refusal the answer is the equivalent entry.
   */
  function InsertHintUnique<V>(m: Header<V>, pos: nat, e: Entry<V>): (r: (Header<V>, nat))
    requires pos <= Size(m.root)
    ensures r.1 <= Size(r.0.root)
  {
    match GetInsertHintUniquePos(m.root, pos, e.key)
    case Slot(g) => (LinkAt(m, g, e), g)
    case Taken(j) => (m, j)
  }

  /** In a unique-key container a hinted insertion is the plain one, whatever the hint. */
  lemma InsertHintUniqueAgrees<V>(m: Header<V>, pos: nat, e: Entry<V>)
    requires Inv(m) && UniqueKeys(Elems(m.root)) && pos <= Size(m.root)
    ensures InsertHintUnique(m, pos, e) == (InsertUnique(m, e).0, InsertUnique(m, e).1)
  {
    HintUniqueAgrees(m.root, pos, e.key);
  }

  /**
   * _M_insert_equal_(pos, v) and _M_emplace_hint_equal: the hinted equal
   * finder decides; its null answer falls back to M_insert_equal_lower,
   * the lower-bound descent.
   */
  function InsertHintEqual<V>(m: Header<V>, pos: nat, e: Entry<V>): (r: (Header<V>, nat))
    requires pos <= Size(m.root)
    ensures r.1 < Size(r.0.root) && Elems(r.0.root)[r.1] == e
  {
    var g := match GetInsertHintEqualPos(m.root, pos, e.key)
      case Some(g) => g
      case None => LowerBound(m.root, e.key);
    var r := LinkAt(m, g, e);
    assert Elems(r.root)[g] == e;
    (r, g)
  }

  /**
   * A hinted equal insertion keeps the invariant and the order, and a
   * hint that fits the key is where the entry goes.
   */
  lemma InsertHintEqualCorrect<V>(m: Header<V>, pos: nat, e: Entry<V>)
    requires Inv(m) && pos <= Size(m.root)
    ensures var (r, i) := InsertHintEqual(m, pos, e);
      Inv(r) && Elems(r.root) == Elems(m.root)[..i] + [e] + Elems(m.root)[i..] &&
      (FitsAt(Elems(m.root), pos, e.key) ==> i == pos)
  {
    HintEqualFits(m.root, pos, e.key);
    LowerBoundCorrect(m.root, e.key);
    var g := InsertHintEqual(m, pos, e).1;
    LinkAtInv(m, g, e);
  }

  /**
   * extract(pos) as written: the node is unlinked and handed over, but
   * node_count is never decremented.
   */
  function ExtractAsWritten<V>(m: Header<V>, i: nat): (r: (Header<V>, NodeHandle.Handle<Entry<V>>))
    requires Inv(m) && i < Size(m.root)
  {
    var e := EraseAux(m, i);
    (e.(count := m.count), Some(Elems(m.root)[i]))
  }

  /** After the as-written extract the cached size overstates the tree by one. */
  lemma ExtractAsWrittenMiscounts<V>(m: Header<V>, i: nat)
    requires Inv(m) && i < Size(m.root)
    ensures ExtractAsWritten(m, i).0.count == Size(ExtractAsWritten(m, i).0.root) + 1
    ensures !Inv(ExtractAsWritten(m, i).0)
  {
  }

  /**
   * The entries owned by the container's nodes together with the one a
   * node handle owns: a node that is linked and still owned by a handle
   * counts twice.
   */
  ghost function Owners<V>(m: Header<V>, h: NodeHandle.Handle<Entry<V>>): multiset<Entry<V>>
  {
    multiset(Elems(m.root)) + NodeHandle.Owned(h)
  }

  /** Linking an entry adds exactly that entry to the ones the tree owns. */
  lemma LinkAtOwns<V>(m: Header<V>, g: nat, e: Entry<V>)
    requires g <= Size(m.root)
    ensures multiset(Elems(LinkAt(m, g, e).root)) == multiset(Elems(m.root)) + multiset{e}
  {
    var s := Elems(m.root);
    assert s == s[..g] + s[g..];
  }

  /**
   * extract(pos) with the decrement: unlink the node and hand it over in a
   * handle; the node passes from the container to the handle.
   */
  function Extract<V>(m: Header<V>, i: nat): (r: (Header<V>, NodeHandle.Handle<Entry<V>>))
    requires Inv(m) && i < Size(m.root)
    ensures Inv(r.0) && r.1 == Some(Elems(m.root)[i])
    ensures Elems(r.0.root) == Elems(m.root)[..i] + Elems(m.root)[i + 1..]
    ensures Owners(r.0, r.1) == Owners(m, None)
  {
    EraseAuxInv(m, i);
    var s := Elems(m.root);
    assert s == s[..i] + [s[i]] + s[i + 1..];
    (EraseAux(m, i), Some(s[i]))
  }

  /** extract(k): extract what find(k) finds, or hand back an empty handle. */
  function ExtractKey<V>(m: Header<V>, k: int): (r: (Header<V>, NodeHandle.Handle<Entry<V>>))
    requires Inv(m)
    ensures Inv(r.0) && Owners(r.0, r.1) == Owners(m, None)
    ensures r.1.Some? ==> r.1.value.key == k
    ensures r.1.None? ==> r.0 == m
  {
    var i := Find(m.root, k);
    if i == Size(m.root) then (m, None) else Extract(m, i)
  }

  /** extract(k) comes back empty-handed exactly when no entry has key k. */
  lemma ExtractKeyFinds<V>(m: Header<V>, k: int)
    requires Inv(m)
    ensures ExtractKey(m, k).1.None? <==> forall j :: 0 <= j < Size(m.root) ==> Elems(m.root)[j].key != k
  {
    FindCorrect(m.root, k);
  }

  /** What insert(node_type&&) returns on a unique container. */
  datatype InsertReturn<V> = InsertReturn(tree: Header<V>, position: nat, inserted: bool, node: NodeHandle.Handle<Entry<V>>)

  /**
   * M_reinsert_node_unique: an empty handle yields end(); otherwise the
   * unique finder decides, and on refusal the node travels back in the
   * returned handle.
   */
  function ReinsertUnique<V>(m: Header<V>, nh: NodeHandle.Handle<Entry<V>>): (r: InsertReturn<V>)
    ensures r.position <= Size(r.tree.root)
    ensures r.inserted ==> r.node.None?
  {
    match nh
    case None => InsertReturn(m, Size(m.root), false, None)
    case Some(e) =>
      match GetInsertUniquePos(m.root, e.key)
      case Slot(g) => InsertReturn(LinkAt(m, g, e), g, true, NodeHandle.Release(nh))
      case Taken(j) => InsertReturn(m, j, false, Some(e))
  }

  /**
   * Reinserting a node is inserting its entry: same tree, same position,
   * same verdict; the node is kept by exactly one of the tree and the handle.
   */
  lemma ReinsertUniqueIsInsert<V>(m: Header<V>, e: Entry<V>)
    ensures var r := ReinsertUnique(m, Some(e));
      (r.tree, r.position, r.inserted) == InsertUnique(m, e) &&
      (r.inserted <==> r.node.None?) && (!r.inserted ==> r.node == Some(e)) &&
      Owners(r.tree, r.node) == Owners(m, Some(e))
  {
    match GetInsertUniquePos(m.root, e.key)
    case Slot(g) => LinkAtOwns(m, g, e);
    case Taken(j) =>
  }

  /**
   * M_reinsert_node_equal as written: the node is linked at the equal
   * finder's gap but the handle is never released, so it still owns the
   * node (its destructor would free a node the tree links). The release
   * sits in a branch the equal finder never takes.
   */
  function ReinsertEqualAsWritten<V>(m: Header<V>, nh: NodeHandle.Handle<Entry<V>>): (r: (Header<V>, nat, NodeHandle.Handle<Entry<V>>))
    ensures r.1 <= Size(r.0.root)
  {
    match nh
    case None => (m, Size(m.root), None)
    case Some(e) =>
      var g := UpperBound(m.root, e.key);
      (LinkAt(m, g, e), g, nh)
  }

  /**
   * As written, a reinserted node is owned by the tree and the handle at
   * once: the owners count it one time more than before the call.
   */
  lemma ReinsertEqualAsWrittenDoubleOwns<V>(m: Header<V>, e: Entry<V>)
    ensures var r := ReinsertEqualAsWritten(m, Some(e));
      r.1 < Size(r.0.root) && Elems(r.0.root)[r.1] == e && r.2 == Some(e) &&
      Owners(r.0, r.2) == Owners(m, Some(e)) + multiset{e}
  {
    var g := UpperBound(m.root, e.key);
    assert Elems(LinkAt(m, g, e).root)[g] == e;
    LinkAtOwns(m, g, e);
  }

  /**
   * M_reinsert_node_equal with the release: the tree takes the node, the
   * handle ends empty, and every entry keeps exactly one owner.
   */
  function ReinsertEqual<V>(m: Header<V>, nh: NodeHandle.Handle<Entry<V>>): (r: (Header<V>, nat, NodeHandle.Handle<Entry<V>>))
    ensures r.1 <= Size(r.0.root) && r.2.None?
    ensures nh.Some? ==> r.1 < Size(r.0.root) && Elems(r.0.root)[r.1] == nh.value
    ensures Owners(r.0, r.2) == Owners(m, nh)
  {
    match nh
    case None => (m, Size(m.root), None)
    case Some(e) =>
      var r := InsertEqual(m, e);
      LinkAtOwns(m, UpperBound(m.root, e.key), e);
      (r.0, r.1, NodeHandle.Release(nh))
  }

  /**
   * M_reinsert_node_hint_unique: the hinted unique finder decides; on
   * refusal the handle is left as it was and the answer is the
   * equivalent entry.
   */
  function ReinsertHintUnique<V>(m: Header<V>, pos: nat, nh: NodeHandle.Handle<Entry<V>>): (r: (Header<V>, nat, NodeHandle.Handle<Entry<V>>))
    requires pos <= Size(m.root)
    ensures r.1 <= Size(r.0.root)
  {
    match nh
    case None => (m, Size(m.root), None)
    case Some(e) =>
      match GetInsertHintUniquePos(m.root, pos, e.key)
      case Slot(g) => (LinkAt(m, g, e), g, NodeHandle.Release(nh))
      case Taken(j) => (m, j, nh)
  }

  /**
   * In a unique-key container a hinted reinsertion behaves as the plain
   * one: the handle is emptied exactly when the node went in.
   */
  lemma ReinsertHintUniqueAgrees<V>(m: Header<V>, pos: nat, e: Entry<V>)
    requires Inv(m) && UniqueKeys(Elems(m.root)) && pos <= Size(m.root)
    ensures var r := ReinsertHintUnique(m, pos, Some(e));
      var u := ReinsertUnique(m, Some(e));
      r == (u.tree, u.position, u.node)
  {
    HintUniqueAgrees(m.root, pos, e.key);
  }
}
