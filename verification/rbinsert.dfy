/**
 * Rb_tree_insert_and_rebalance (rb_tree.h:397-464) on the functional tree.
 * The new node is linked as a red leaf at a gap of the in-order sequence;
 * gap g lies between the elements at positions g-1 and g, and in a binary
 * search tree exactly one null child sits at each gap, so the pointer pair
 * (x, p) with `insert_left` that the position finders hand over names a gap.
 * The fix-up loop walks up from the new node; its violations are repaired
 * here at the grandparent, one recursion level at a time.
 */
module RbInsert {
  import opened RbTree

  /** A red node with a red child: the violation the fix-up loop chases. */
  predicate RedRed<V>(t: Tree<V>)
  {
    t.Node? && t.color == Red && (ColorOf(t.left) == Red || ColorOf(t.right) == Red)
  }

  /**
   * Fix-up at grandparent xpp = Node(c, l, k, v, r) when the parent l is red
   * and has a red child x. A red uncle r is recoloured and the violation moves
   * up to xpp (x = xpp); otherwise a zig-zag is first rotated into a straight
   * line (rotate_left on the parent) and xpp is rotated right.
   */
  function BalanceLeft<V>(c: Color, l: Tree<V>, k: int, v: V, r: Tree<V>): (t: Tree<V>)
    ensures Elems(t) == Elems(l) + [Entry(k, v)] + Elems(r)
  {
    if RedRed(l) then
      if ColorOf(r) == Red then
        Node(Red, l.(color := Black), k, v, r.(color := Black))
      else if ColorOf(l.right) == Red then
        var p := RotateLeft(l);
        RotateRight(Node(Red, p.(color := Black), k, v, r))
      else
        RotateRight(Node(Red, l.(color := Black), k, v, r))
    else
      Node(c, l, k, v, r)
  }

  /** Mirror image of BalanceLeft for a violation in the right subtree. */
  function BalanceRight<V>(c: Color, l: Tree<V>, k: int, v: V, r: Tree<V>): (t: Tree<V>)
    ensures Elems(t) == Elems(l) + [Entry(k, v)] + Elems(r)
  {
    if RedRed(r) then
      if ColorOf(l) == Red then
        Node(Red, l.(color := Black), k, v, r.(color := Black))
      else if ColorOf(r.left) == Red then
        var p := RotateRight(r);
        RotateLeft(Node(Red, l, k, v, p.(color := Black)))
      else
        RotateLeft(Node(Red, l, k, v, r.(color := Black)))
    else
      Node(c, l, k, v, r)
  }

  /** Links a red leaf holding `e` at gap `g` and runs the fix-up below the root. */
  function Ins<V>(t: Tree<V>, g: nat, e: Entry<V>): (r: Tree<V>)
    requires g <= Size(t)
    ensures Elems(r) == Elems(t)[..g] + [e] + Elems(t)[g..]
    ensures r.Node?
  {
    match t
    case Leaf => Node(Red, Leaf, e.key, e.val, Leaf)
    case Node(c, l, k, v, rt) =>
      if g <= Size(l) then
        GapInLeft(Elems(l), Entry(k, v), Elems(rt), g, e);
        BalanceLeft(c, Ins(l, g, e), k, v, rt)
      else
        GapInRight(Elems(l), Entry(k, v), Elems(rt), g, e);
        BalanceRight(c, l, k, v, Ins(rt, g - Size(l) - 1, e))
  }

  /** Inserting at gap g of a node's sequence, when the gap lies in the left subtree. */
  lemma GapInLeft<E>(l: seq<E>, m: E, r: seq<E>, g: nat, e: E)
    requires g <= |l|
    ensures (l + [m] + r)[..g] + [e] + (l + [m] + r)[g..] == (l[..g] + [e] + l[g..]) + [m] + r
  {
    var s := l + [m] + r;
    assert s[..g] == l[..g];
    assert s[g..] == l[g..] + [m] + r;
  }

  /** Inserting at gap g of a node's sequence, when the gap lies in the right subtree. */
  lemma GapInRight<E>(l: seq<E>, m: E, r: seq<E>, g: nat, e: E)
    requires |l| < g <= |l| + 1 + |r|
    ensures var h := g - |l| - 1;
      (l + [m] + r)[..g] + [e] + (l + [m] + r)[g..] == l + [m] + (r[..h] + [e] + r[h..])
  {
    var s := l + [m] + r;
    var h := g - |l| - 1;
    assert s[..g] == l + [m] + r[..h];
    assert s[g..] == r[h..];
  }

  /** The whole insertion: link, fix up, and paint the root black (rb_tree.h:463). */
  function InsertAt<V>(t: Tree<V>, g: nat, e: Entry<V>): (r: Tree<V>)
    requires g <= Size(t)
    ensures Elems(r) == Elems(t)[..g] + [e] + Elems(t)[g..]
    ensures Size(r) == Size(t) + 1
    ensures ColorOf(r) == Black
  {
    Blacken(Ins(t, g, e))
  }

  /**
   * What the fix-up may leave below a red parent: a red node with balanced
   * children of which at most one is red.
   */
  predicate Infrared<V>(t: Tree<V>, h: nat)
  {
    t.Node? && t.color == Red && RbHeight(t.left, h) && RbHeight(t.right, h) &&
    (ColorOf(t.left) == Black || ColorOf(t.right) == Black)
  }

  lemma BalanceLeftRb<V>(c: Color, l: Tree<V>, k: int, v: V, r: Tree<V>, h: nat)
    requires c == Black ==> h >= 1
    requires var hc := if c == Black then h - 1 else h;
      RbHeight(r, hc) && (if c == Black then RbHeight(l, hc) || Infrared(l, hc)
                          else RbHeight(l, hc) && ColorOf(r) == Black)
    ensures c == Black ==> RbHeight(BalanceLeft(c, l, k, v, r), h)
    ensures c == Red ==> Infrared(BalanceLeft(c, l, k, v, r), h)
  {
    if c == Red {
      assert !RedRed(l);
    }
  }

  lemma BalanceRightRb<V>(c: Color, l: Tree<V>, k: int, v: V, r: Tree<V>, h: nat)
    requires c == Black ==> h >= 1
    requires var hc := if c == Black then h - 1 else h;
      RbHeight(l, hc) && (if c == Black then RbHeight(r, hc) || Infrared(r, hc)
                          else RbHeight(r, hc) && ColorOf(l) == Black)
    ensures c == Black ==> RbHeight(BalanceRight(c, l, k, v, r), h)
    ensures c == Red ==> Infrared(BalanceRight(c, l, k, v, r), h)
  {
    if c == Red {
      assert !RedRed(r);
    }
  }

  /**
   * Below a black node (or at an empty slot) the fix-up leaves a red-red free
   * subtree of unchanged black height; below a red node it leaves at most a
   * violation at the top, which the grandparent repairs.
   */
  lemma {:induction false} InsRb<V>(t: Tree<V>, g: nat, e: Entry<V>, h: nat)
    requires g <= Size(t) && RbHeight(t, h)
    ensures ColorOf(t) == Black ==> RbHeight(Ins(t, g, e), h)
    ensures ColorOf(t) == Red ==> Infrared(Ins(t, g, e), h)
  {
    match t
    case Leaf =>
    case Node(c, l, k, v, rt) =>
      var hc := if c == Black then h - 1 else h;
      if g <= Size(l) {
        InsRb(l, g, e, hc);
        BalanceLeftRb(c, Ins(l, g, e), k, v, rt, h);
      } else {
        InsRb(rt, g - Size(l) - 1, e, hc);
        BalanceRightRb(c, l, k, v, Ins(rt, g - Size(l) - 1, e), h);
      }
  }

  /**
   * Inserting at a gap that respects the order keeps every invariant: the
   * tree stays ordered, red-red free and balanced, its root is black, and it
   * gains exactly one node.
   */
  lemma InsertAtValid<V>(t: Tree<V>, g: nat, e: Entry<V>)
    requires Valid(t) && g <= Size(t)
    requires Sorted(Elems(t)[..g] + [e] + Elems(t)[g..])
    ensures Valid(InsertAt(t, g, e))
  {
    var h := BlackHeight(t);
    InsRb(t, g, e, h);
    var r := Ins(t, g, e);
    var hb := if r.color == Red then h + 1 else h;
    BlackenHeight(r, h);
    RbHeightIsBlackHeight(Blacken(r), hb);
  }

  /** Painting the root black adds one to the black height exactly when the root was red. */
  lemma BlackenHeight<V>(r: Tree<V>, h: nat)
    requires r.Node? && RbHeight(r, h)
    ensures RbHeight(Blacken(r), if r.color == Red then h + 1 else h)
  {
  }
}
