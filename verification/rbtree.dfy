/**
 * The red-black tree of rb_tree.h as an immutable algebraic tree.
 * A node carries its colour, a key (compared with `<`, the default
 * comparator) and a payload, so that the relative order of equivalent
 * keys stays observable. The abstraction of a tree is its in-order
 * sequence of entries; iterators are positions in that sequence.
 */
module RbTree {
  /** rb_tree.h encodes S_red as false and S_black as true. */
  datatype Color = Red | Black

  datatype Entry<V> = Entry(key: int, val: V)

  datatype Tree<V> =
    | Leaf
    | Node(color: Color, left: Tree<V>, key: int, val: V, right: Tree<V>)

  /** In-order walk of the tree. */
  function Elems<V>(t: Tree<V>): seq<Entry<V>>
  {
    match t
    case Leaf => []
    case Node(_, l, k, v, r) => Elems(l) + [Entry(k, v)] + Elems(r)
  }

  /** Number of nodes, i.e. what node_count should hold. */
  function Size<V>(t: Tree<V>): (n: nat)
    ensures n == |Elems(t)|
  {
    match t
    case Leaf => 0
    case Node(_, l, _, _, r) => Size(l) + 1 + Size(r)
  }

  function Keys<V>(s: seq<Entry<V>>): (ks: seq<int>)
    ensures |ks| == |s|
    ensures forall i :: 0 <= i < |s| ==> ks[i] == s[i].key
  {
    if s == [] then [] else [s[0].key] + Keys(s[1..])
  }

  /** Comparator order along a sequence: no later key is less than an earlier one. */
  predicate Sorted<V>(s: seq<Entry<V>>)
  {
    forall i, j :: 0 <= i < j < |s| ==> s[i].key <= s[j].key
  }

  /** Ordering invariant: the in-order walk yields the comparator's order. */
  predicate Ordered<V>(t: Tree<V>)
  {
    Sorted(Elems(t))
  }

  /** A null child counts as black. */
  function ColorOf<V>(t: Tree<V>): Color
  {
    if t.Leaf? then Black else t.color
  }

  function Blacken<V>(t: Tree<V>): (r: Tree<V>)
    ensures Elems(r) == Elems(t)
    ensures ColorOf(r) == Black
  {
    if t.Leaf? then t else t.(color := Black)
  }

  /**
   * No red node has a red child, and every path from the root of `t`
   * down to a null child passes exactly `h` black nodes.
   */
  predicate RbHeight<V>(t: Tree<V>, h: nat)
  {
    match t
    case Leaf => h == 0
    case Node(c, l, _, _, r) =>
      if c == Black then h >= 1 && RbHeight(l, h - 1) && RbHeight(r, h - 1)
      else ColorOf(l) == Black && ColorOf(r) == Black && RbHeight(l, h) && RbHeight(r, h)
  }

  /** Black nodes on the leftmost path; the black height of a balanced tree. */
  function BlackHeight<V>(t: Tree<V>): nat
  {
    match t
    case Leaf => 0
    case Node(c, l, _, _, _) => BlackHeight(l) + (if c == Black then 1 else 0)
  }

  /** The tree invariants: ordered, red-red free, balanced, black root. */
  predicate Valid<V>(t: Tree<V>)
  {
    Ordered(t) && ColorOf(t) == Black && RbHeight(t, BlackHeight(t))
  }

  lemma {:induction false} RbHeightIsBlackHeight<V>(t: Tree<V>, h: nat)
    requires RbHeight(t, h)
    ensures BlackHeight(t) == h
  {
    match t
    case Leaf =>
    case Node(_, l, _, _, _) => RbHeightIsBlackHeight(l, if t.color == Black then h - 1 else h);
  }

  /** Elements below the node's key on the left, above it on the right. */
  predicate Bounded<V>(l: Tree<V>, k: int, r: Tree<V>)
  {
    (forall i :: 0 <= i < |Elems(l)| ==> Elems(l)[i].key <= k) &&
    (forall i :: 0 <= i < |Elems(r)| ==> k <= Elems(r)[i].key)
  }

  /** The ordering invariant of a node, split into its parts. */
  lemma OrderedNode<V>(c: Color, l: Tree<V>, k: int, v: V, r: Tree<V>)
    ensures Ordered(Node(c, l, k, v, r)) <==> Ordered(l) && Ordered(r) && Bounded(l, k, r)
  {
    if Ordered(l) && Ordered(r) && Bounded(l, k, r) {
      SortedJoin(Elems(l), Entry(k, v), Elems(r));
    }
    if Ordered(Node(c, l, k, v, r)) {
      SortedSplit(Elems(l), Entry(k, v), Elems(r));
    }
  }

  lemma SortedJoin<V>(a: seq<Entry<V>>, m: Entry<V>, b: seq<Entry<V>>)
    requires Sorted(a) && Sorted(b)
    requires forall i :: 0 <= i < |a| ==> a[i].key <= m.key
    requires forall i :: 0 <= i < |b| ==> m.key <= b[i].key
    ensures Sorted(a + [m] + b)
  {
    var s := a + [m] + b;
    forall i, j | 0 <= i < j < |s| ensures s[i].key <= s[j].key {
      if j < |a| {
      } else if i < |a| {
        if j > |a| { assert s[j] == b[j - |a| - 1]; }
      } else if i > |a| {
        assert s[i] == b[i - |a| - 1] && s[j] == b[j - |a| - 1];
      } else {
        assert s[j] == b[j - |a| - 1];
      }
    }
  }

  lemma SortedSplit<V>(a: seq<Entry<V>>, m: Entry<V>, b: seq<Entry<V>>)
    requires Sorted(a + [m] + b)
    ensures Sorted(a) && Sorted(b)
    ensures forall i :: 0 <= i < |a| ==> a[i].key <= m.key
    ensures forall i :: 0 <= i < |b| ==> m.key <= b[i].key
  {
    var s := a + [m] + b;
    assert forall i :: 0 <= i < |a| ==> s[i] == a[i];
    assert forall i :: 0 <= i < |b| ==> s[|a| + 1 + i] == b[i];
    assert s[|a|] == m;
  }

  /** S_minimum: the leftmost node of a non-empty subtree. */
  function Minimum<V>(t: Tree<V>): (e: Entry<V>)
    requires t.Node?
    ensures e == Elems(t)[0]
  {
    if t.left.Leaf? then Entry(t.key, t.val) else Minimum(t.left)
  }

  /** S_maximum: the rightmost node of a non-empty subtree. */
  function Maximum<V>(t: Tree<V>): (e: Entry<V>)
    requires t.Node?
    ensures e == Elems(t)[|Elems(t)| - 1]
  {
    if t.right.Leaf? then Entry(t.key, t.val) else Maximum(t.right)
  }

  /**
   * Rb_tree_rotate_left on the subtree rooted at x: the right child y is
   * promoted into x's place, x becomes y's left child and y's old left
   * subtree becomes x's right subtree. Colours travel with their nodes.
   */
  function RotateLeft<V>(t: Tree<V>): (r: Tree<V>)
    requires t.Node? && t.right.Node?
    ensures Elems(r) == Elems(t)
    ensures r.Node? && r.left.Node?
    ensures r.key == t.right.key && r.left.key == t.key
    ensures r.left.right == t.right.left && r.right == t.right.right && r.left.left == t.left
  {
    var y := t.right;
    Node(y.color, Node(t.color, t.left, t.key, t.val, y.left), y.key, y.val, y.right)
  }

  /** Rb_tree_rotate_right, the mirror image of RotateLeft. */
  function RotateRight<V>(t: Tree<V>): (r: Tree<V>)
    requires t.Node? && t.left.Node?
    ensures Elems(r) == Elems(t)
    ensures r.Node? && r.right.Node?
    ensures r.key == t.left.key && r.right.key == t.key
    ensures r.right.left == t.left.right && r.left == t.left.left && r.right.right == t.right
  {
    var y := t.left;
    Node(y.color, y.left, y.key, y.val, Node(t.color, y.right, t.key, t.val, t.right))
  }

  /** Rotations undo each other. */
  lemma RotateRoundTrip<V>(t: Tree<V>)
    requires t.Node? && t.right.Node?
    ensures RotateRight(RotateLeft(t)) == t
  {
  }
}
