/**
 * Rb_tree_rebalance_for_erase (rb_tree.h:467-595) with the fix-up written
 * the way its comment at rb_tree.h:527 describes it: the loop runs when the
 * removed colour is black, and it is entered with `x_parent` the parent of
 * the spliced position. The code as written differs on both counts; see
 * module RbPointer. Here the fix-up loop is unrolled into the recursion: a
 * subtree whose black height dropped by one is reported `short`, and its
 * parent repairs it with the four cases of the loop body.
 */
module RbErase {
  import opened RbTree

  datatype Del<V> = Del(tree: Tree<V>, short: bool)

  /**
   * The spliced child x takes the place of a removed node of colour c. A
   * black removal is absorbed by a red x (painted black after the loop),
   * otherwise x is short.
   */
  function Splice<V>(c: Color, x: Tree<V>): (d: Del<V>)
    ensures Elems(d.tree) == Elems(x)
  {
    if c == Red then Del(x, false)
    else if ColorOf(x) == Red then Del(x.(color := Black), false)
    else Del(x, true)
  }

  /**
   * Cases B, C and D of the loop body for a short left child x of
   * x_parent = Node(c, x, k, v, w) with a black sibling w.
   * B: w has no red child, so w turns red and x moves up to x_parent
   *    (which absorbs the shortage if it is red).
   * C: only w's left child is red; rotate w right so its right child is red.
   * D: w's right child is red; w takes x_parent's colour, x_parent and w's
   *    right child turn black, and x_parent is rotated left.
   */
  function FixLeftBlack<V>(c: Color, x: Tree<V>, k: int, v: V, w: Tree<V>): (d: Del<V>)
    ensures Elems(d.tree) == Elems(x) + [Entry(k, v)] + Elems(w)
  {
    if w.Leaf? then Del(Node(c, x, k, v, w), true)
    else if ColorOf(w.left) == Black && ColorOf(w.right) == Black then
      Del(Node(Black, x, k, v, w.(color := Red)), c == Black)
    else
      var w1 := if ColorOf(w.right) == Black
                then RotateRight(w.(color := Red, left := w.left.(color := Black)))
                else w;
      var t := RotateLeft(Node(Black, x, k, v, w1.(color := c, right := Blacken(w1.right))));
      Del(t, false)
  }

  /**
   * The loop body for a short left child. Case A: a red sibling w turns
   * black, x_parent turns red and is rotated left; x's new sibling is w's
   * old left child and cases B-D follow at x_parent.
   */
  function FixLeft<V>(c: Color, x: Tree<V>, k: int, v: V, w: Tree<V>): (d: Del<V>)
    ensures Elems(d.tree) == Elems(x) + [Entry(k, v)] + Elems(w)
  {
    if ColorOf(w) == Red then
      var inner := FixLeftBlack(Red, x, k, v, w.left);
      Del(Node(Black, inner.tree, w.key, w.val, w.right), inner.short)
    else
      FixLeftBlack(c, x, k, v, w)
  }

  /** Mirror image of FixLeftBlack for a short right child. */
  function FixRightBlack<V>(c: Color, w: Tree<V>, k: int, v: V, x: Tree<V>): (d: Del<V>)
    ensures Elems(d.tree) == Elems(w) + [Entry(k, v)] + Elems(x)
  {
    if w.Leaf? then Del(Node(c, w, k, v, x), true)
    else if ColorOf(w.left) == Black && ColorOf(w.right) == Black then
      Del(Node(Black, w.(color := Red), k, v, x), c == Black)
    else
      var w1 := if ColorOf(w.left) == Black
                then RotateLeft(w.(color := Red, right := w.right.(color := Black)))
                else w;
      var t := RotateRight(Node(Black, w1.(color := c, left := Blacken(w1.left)), k, v, x));
      Del(t, false)
  }

  /** Mirror image of FixLeft for a short right child. */
  function FixRight<V>(c: Color, w: Tree<V>, k: int, v: V, x: Tree<V>): (d: Del<V>)
    ensures Elems(d.tree) == Elems(w) + [Entry(k, v)] + Elems(x)
  {
    if ColorOf(w) == Red then
      var inner := FixRightBlack(Red, w.right, k, v, x);
      Del(Node(Black, w.left, w.key, w.val, inner.tree), inner.short)
    else
      FixRightBlack(c, w, k, v, x)
  }

  /** Dropping position i of a node's sequence, when i lies in the left subtree. */
  lemma DropInLeft<E>(l: seq<E>, e: E, r: seq<E>, i: nat)
    requires i < |l|
    ensures (l + [e] + r)[..i] + (l + [e] + r)[i + 1..] == l[..i] + l[i + 1..] + [e] + r
  {
    var s := l + [e] + r;
    assert s[..i] == l[..i];
    assert s[i + 1..] == l[i + 1..] + [e] + r;
  }

  /** Dropping position i of a node's sequence, when i lies in the right subtree. */
  lemma DropInRight<E>(l: seq<E>, e: E, r: seq<E>, i: nat)
    requires |l| < i < |l| + 1 + |r|
    ensures var j := i - |l| - 1;
      (l + [e] + r)[..i] + (l + [e] + r)[i + 1..] == l + [e] + (r[..j] + r[j + 1..])
  {
    var s := l + [e] + r;
    var j := i - |l| - 1;
    assert s[..i] == l + [e] + r[..j];
    assert s[i + 1..] == r[j + 1..];
  }

  /** Dropping a node's own position, replaced by the first element of its right subtree. */
  lemma DropSelf<E>(l: seq<E>, e: E, r: seq<E>)
    requires |r| > 0
    ensures (l + [e] + r)[..|l|] + (l + [e] + r)[|l| + 1..] == l + [r[0]] + r[1..]
  {
    var s := l + [e] + r;
    assert s[..|l|] == l;
    assert s[|l| + 1..] == r;
    assert r == [r[0]] + r[1..];
  }

  /**
   * Removes the element at in-order position i. A node z with at most one
   * child is replaced by that child; a node with two children receives its
   * successor y (the first element of its right subtree, removed from there
   * by the same procedure) and keeps its own colour, as the relinking of y
   * into z's place with swapped colours does.
   */
  function DelAt<V>(t: Tree<V>, i: nat): (d: Del<V>)
    requires i < Size(t)
    ensures Elems(d.tree) == Elems(t)[..i] + Elems(t)[i + 1..]
  {
    var Node(c, l, k, v, r) := t;
    if i < Size(l) then
      var d := DelAt(l, i);
      DropInLeft(Elems(l), Entry(k, v), Elems(r), i);
      if d.short then FixLeft(c, d.tree, k, v, r) else Del(Node(c, d.tree, k, v, r), false)
    else if i > Size(l) then
      var i' := i - Size(l) - 1;
      var d := DelAt(r, i');
      DropInRight(Elems(l), Entry(k, v), Elems(r), i);
      if d.short then FixRight(c, l, k, v, d.tree) else Del(Node(c, l, k, v, d.tree), false)
    else if l.Leaf? then
      assert Elems(t)[i + 1..] == Elems(r);
      Splice(c, r)
    else if r.Leaf? then
      assert Elems(t)[..i] == Elems(l);
      Splice(c, l)
    else
      var y := Minimum(r);
      var d := DelAt(r, 0);
      DropSelf(Elems(l), Entry(k, v), Elems(r));
      if d.short then FixRight(c, l, y.key, y.val, d.tree)
      else Del(Node(c, l, y.key, y.val, d.tree), false)
  }

  /** The whole erase: unlink, fix up, and paint the root black (rb_tree.h:593). */
  function EraseAt<V>(t: Tree<V>, i: nat): (r: Tree<V>)
    requires i < Size(t)
    ensures Elems(r) == Elems(t)[..i] + Elems(t)[i + 1..]
    ensures Size(r) == Size(t) - 1
    ensures ColorOf(r) == Black
  {
    Blacken(DelAt(t, i).tree)
  }

  /** What a repaired subtree promises its parent. */
  predicate Repaired<V>(d: Del<V>, h: nat)
  {
    if d.short then h >= 1 && RbHeight(d.tree, h - 1) && ColorOf(d.tree) == Black
    else RbHeight(d.tree, h)
  }

  lemma FixLeftBlackRb<V>(c: Color, x: Tree<V>, k: int, v: V, w: Tree<V>, h: nat, hc: nat)
    requires hc == (if c == Black then h - 1 else h) && hc >= 1
    requires RbHeight(x, hc - 1) && ColorOf(x) == Black
    requires RbHeight(w, hc) && ColorOf(w) == Black
    ensures Repaired(FixLeftBlack(c, x, k, v, w), h)
    ensures c == Black ==> ColorOf(FixLeftBlack(c, x, k, v, w).tree) == Black
    ensures c == Red ==> !FixLeftBlack(c, x, k, v, w).short
  {
    if ColorOf(w.left) == Black && ColorOf(w.right) == Black {
    } else if ColorOf(w.right) == Black {
      var w0 := w.(color := Red, left := w.left.(color := Black));
      var w1 := RotateRight(w0);
      assert w1.right == Node(Red, w.left.right, w.key, w.val, w.right);
      assert RbHeight(w1, hc);
    }
  }

  lemma FixRightBlackRb<V>(c: Color, w: Tree<V>, k: int, v: V, x: Tree<V>, h: nat, hc: nat)
    requires hc == (if c == Black then h - 1 else h) && hc >= 1
    requires RbHeight(x, hc - 1) && ColorOf(x) == Black
    requires RbHeight(w, hc) && ColorOf(w) == Black
    ensures Repaired(FixRightBlack(c, w, k, v, x), h)
    ensures c == Black ==> ColorOf(FixRightBlack(c, w, k, v, x).tree) == Black
    ensures c == Red ==> !FixRightBlack(c, w, k, v, x).short
  {
    if ColorOf(w.left) == Black && ColorOf(w.right) == Black {
    } else if ColorOf(w.left) == Black {
      var w0 := w.(color := Red, right := w.right.(color := Black));
      var w1 := RotateLeft(w0);
      assert w1.left == Node(Red, w.left, w.key, w.val, w.right.left);
      assert RbHeight(w1, hc);
    }
  }

  /**
   * One pass of the loop body repairs a short left child: the subtree either
   * regains its black height or passes the shortage to its parent, and a
   * black x_parent stays black.
   */
  lemma FixLeftRb<V>(c: Color, x: Tree<V>, k: int, v: V, w: Tree<V>, h: nat, hc: nat)
    requires hc == (if c == Black then h - 1 else h) && hc >= 1
    requires RbHeight(x, hc - 1) && ColorOf(x) == Black
    requires RbHeight(w, hc) && (c == Red ==> ColorOf(w) == Black)
    ensures Repaired(FixLeft(c, x, k, v, w), h)
    ensures c == Black ==> ColorOf(FixLeft(c, x, k, v, w).tree) == Black
  {
    if ColorOf(w) == Red {
      FixLeftBlackRb(Red, x, k, v, w.left, hc, hc);
    } else {
      FixLeftBlackRb(c, x, k, v, w, h, hc);
    }
  }

  lemma FixRightRb<V>(c: Color, w: Tree<V>, k: int, v: V, x: Tree<V>, h: nat, hc: nat)
    requires hc == (if c == Black then h - 1 else h) && hc >= 1
    requires RbHeight(x, hc - 1) && ColorOf(x) == Black
    requires RbHeight(w, hc) && (c == Red ==> ColorOf(w) == Black)
    ensures Repaired(FixRight(c, w, k, v, x), h)
    ensures c == Black ==> ColorOf(FixRight(c, w, k, v, x).tree) == Black
  {
    if ColorOf(w) == Red {
      FixRightBlackRb(Red, w.right, k, v, x, hc, hc);
    } else {
      FixRightBlackRb(c, w, k, v, x, h, hc);
    }
  }

  lemma {:induction false} DelAtRb<V>(t: Tree<V>, i: nat, h: nat)
    requires i < Size(t) && RbHeight(t, h)
    ensures Repaired(DelAt(t, i), h)
    ensures ColorOf(t) == Black ==> ColorOf(DelAt(t, i).tree) == Black
  {
    var Node(c, l, k, v, r) := t;
    var hc: nat := if c == Black then h - 1 else h;
    if i < Size(l) {
      DelAtRb(l, i, hc);
      var d := DelAt(l, i);
      if d.short { FixLeftRb(c, d.tree, k, v, r, h, hc); }
    } else if i > Size(l) {
      DelAtRb(r, i - Size(l) - 1, hc);
      var d := DelAt(r, i - Size(l) - 1);
      if d.short { FixRightRb(c, l, k, v, d.tree, h, hc); }
    } else if l.Leaf? {
    } else if r.Leaf? {
    } else {
      DelAtRb(r, 0, hc);
      var y := Minimum(r);
      var d := DelAt(r, 0);
      if d.short { FixRightRb(c, l, y.key, y.val, d.tree, h, hc); }
    }
  }

  /**
   * Erasing any position of a valid tree keeps every invariant: ordered,
   * red-red free, balanced, black root, one node fewer.
   */
  lemma EraseAtValid<V>(t: Tree<V>, i: nat)
    requires Valid(t) && i < Size(t)
    ensures Valid(EraseAt(t, i))
  {
    var h := BlackHeight(t);
    DelAtRb(t, i, h);
    var d := DelAt(t, i);
    assert Blacken(d.tree) == d.tree;
    var hb: nat := if d.short then h - 1 else h;
    assert RbHeight(EraseAt(t, i), hb);
    RbHeightIsBlackHeight(EraseAt(t, i), hb);
    SortedRemove(Elems(t), i);
  }

  lemma SortedRemove<V>(s: seq<Entry<V>>, i: nat)
    requires Sorted(s) && i < |s|
    ensures Sorted(s[..i] + s[i + 1..])
  {
    var u := s[..i] + s[i + 1..];
    forall a, j | 0 <= a < j < |u| ensures u[a].key <= u[j].key {
      var a' := if a < i then a else a + 1;
      var j' := if j < i then j else j + 1;
      assert u[a] == s[a'] && u[j] == s[j'];
    }
  }
}
