/**
 * The bidirectional iterator of rb_tree.h, Rb_tree_increment and
 * Rb_tree_decrement, as a zipper over the functional tree: the focused
 * subtree together with the path of frames leading back up to the root.
 * Climbing out of the root reaches the header, i.e. end().
 */
module RbIter {
  import opened RbTree

  /**
   * One step of the path: the parent node with its colour, key and
   * payload, the child the walk did not take, and whether the focus is the
   * parent's left child.
   */
  datatype Frame<V> = Frame(fromLeft: bool, color: Color, key: int, val: V, other: Tree<V>)

  /** An iterator at a node (the focus's root) or end(), which keeps the whole tree. */
  datatype Iter<V> = At(focus: Tree<V>, path: seq<Frame<V>>) | End(root: Tree<V>)

  /** Hang a subtree back under the parent described by a frame. */
  function Attach<V>(f: Frame<V>, t: Tree<V>): (r: Tree<V>)
    ensures Size(r) == Size(f.other) + 1 + Size(t)
  {
    if f.fromLeft then Node(f.color, t, f.key, f.val, f.other)
    else Node(f.color, f.other, f.key, f.val, t)
  }

  /** Rebuild the whole tree from a subtree and the path above it (innermost frame last). */
  function Plug<V>(t: Tree<V>, path: seq<Frame<V>>): Tree<V>
    decreases |path|
  {
    if path == [] then t else Plug(Attach(path[|path| - 1], t), path[..|path| - 1])
  }

  /** Entries of the whole tree before the subtree at the end of the path. */
  function Before<V>(path: seq<Frame<V>>): seq<Entry<V>>
    decreases |path|
  {
    if path == [] then []
    else
      var f := path[|path| - 1];
      Before(path[..|path| - 1]) + (if f.fromLeft then [] else Elems(f.other) + [Entry(f.key, f.val)])
  }

  /** Entries of the whole tree after the subtree at the end of the path. */
  function After<V>(path: seq<Frame<V>>): seq<Entry<V>>
    decreases |path|
  {
    if path == [] then []
    else
      var f := path[|path| - 1];
      (if f.fromLeft then [Entry(f.key, f.val)] + Elems(f.other) else []) + After(path[..|path| - 1])
  }

  /** Plugging a subtree places its entries between Before and After. */
  lemma {:induction false} PlugElems<V>(t: Tree<V>, path: seq<Frame<V>>)
    ensures Elems(Plug(t, path)) == Before(path) + Elems(t) + After(path)
    decreases |path|
  {
    if path != [] {
      var f := path[|path| - 1];
      var init := path[..|path| - 1];
      PlugElems(Attach(f, t), init);
      Unwind(t, path);
      var e := Entry(f.key, f.val);
      if f.fromLeft {
        RegroupAfter(Elems(Plug(t, path)), Before(path), Elems(t), After(path),
                     [e] + Elems(f.other), After(init));
      } else {
        RegroupBefore(Elems(Plug(t, path)), Before(path), Elems(t), After(path),
                      Before(init), Elems(f.other) + [e]);
      }
    }
  }

  /** Plug, Before and After peel off the innermost frame. */
  lemma Unwind<V>(t: Tree<V>, path: seq<Frame<V>>)
    requires path != []
    ensures var f, init := path[|path| - 1], path[..|path| - 1];
      var e := Entry(f.key, f.val);
      Plug(t, path) == Plug(Attach(f, t), init) &&
      Elems(Attach(f, t)) == (if f.fromLeft then Elems(t) + ([e] + Elems(f.other))
                              else (Elems(f.other) + [e]) + Elems(t)) &&
      Before(path) == (if f.fromLeft then Before(init) else Before(init) + (Elems(f.other) + [e])) &&
      After(path) == (if f.fromLeft then [e] + Elems(f.other) + After(init) else After(init))
  {
    AttachElems(path[|path| - 1], t);
    UnwindBefore(path);
    UnwindAfter(path);
  }

  lemma AttachElems<V>(f: Frame<V>, t: Tree<V>)
    ensures var e := Entry(f.key, f.val);
      Elems(Attach(f, t)) == (if f.fromLeft then Elems(t) + ([e] + Elems(f.other))
                              else (Elems(f.other) + [e]) + Elems(t))
  {
    var e := Entry(f.key, f.val);
    if f.fromLeft {
      assert Elems(Attach(f, t)) == Elems(t) + [e] + Elems(f.other);
    } else {
      assert Elems(Attach(f, t)) == Elems(f.other) + [e] + Elems(t);
    }
  }

  lemma UnwindBefore<V>(path: seq<Frame<V>>)
    requires path != []
    ensures var f, init := path[|path| - 1], path[..|path| - 1];
      Before(path) == (if f.fromLeft then Before(init) else Before(init) + (Elems(f.other) + [Entry(f.key, f.val)]))
  {
  }

  lemma UnwindAfter<V>(path: seq<Frame<V>>)
    requires path != []
    ensures var f, init := path[|path| - 1], path[..|path| - 1];
      After(path) == (if f.fromLeft then [Entry(f.key, f.val)] + Elems(f.other) + After(init) else After(init))
  {
  }

  /** A left frame: its part y of the attached subtree follows the focus. */
  lemma RegroupAfter<E>(p: seq<E>, b: seq<E>, x: seq<E>, a: seq<E>, y: seq<E>, ai: seq<E>)
    requires a == y + ai && p == b + (x + y) + ai
    ensures p == b + x + a
  {
  }

  /** A right frame: its part y of the attached subtree precedes the focus. */
  lemma RegroupBefore<E>(p: seq<E>, b: seq<E>, x: seq<E>, a: seq<E>, bi: seq<E>, y: seq<E>)
    requires b == bi + y && p == bi + (y + x) + a
    ensures p == b + x + a
  {
  }

  /** The tree an iterator walks. */
  function TreeOf<V>(it: Iter<V>): Tree<V>
  {
    match it
    case At(t, path) => Plug(t, path)
    case End(root) => root
  }

  /** The in-order position of an iterator; end() is Size of the tree. */
  function Index<V>(it: Iter<V>): nat
    requires it.At? ==> it.focus.Node?
  {
    match it
    case At(t, path) => |Before(path)| + Size(t.left)
    case End(root) => Size(root)
  }

  /** Dereferencing an iterator yields the entry at its position. */
  lemma Deref<V>(it: Iter<V>)
    requires it.At? && it.focus.Node?
    ensures Index(it) < Size(TreeOf(it))
    ensures Elems(TreeOf(it))[Index(it)] == Entry(it.focus.key, it.focus.val)
  {
    PlugElems(it.focus, it.path);
    var t := it.focus;
    assert Elems(t) == Elems(t.left) + [Entry(t.key, t.val)] + Elems(t.right);
  }

  /** Follow left children from t down to the subtree's first node. */
  function DescendLeft<V>(t: Tree<V>, path: seq<Frame<V>>): (it: Iter<V>)
    requires t.Node?
    ensures it.At? && it.focus.Node? && it.focus.left.Leaf?
    ensures TreeOf(it) == Plug(t, path) && Index(it) == |Before(path)|
  {
    if t.left.Leaf? then At(t, path)
    else
      var f := Frame(true, t.color, t.key, t.val, t.right);
      assert (path + [f])[..|path|] == path;
      DescendLeft(t.left, path + [f])
  }

  /** Follow right children from t down to the subtree's last node. */
  function DescendRight<V>(t: Tree<V>, path: seq<Frame<V>>): (it: Iter<V>)
    requires t.Node?
    ensures it.At? && it.focus.Node? && it.focus.right.Leaf?
    ensures TreeOf(it) == Plug(t, path) && Index(it) == |Before(path)| + Size(t) - 1
  {
    if t.right.Leaf? then At(t, path)
    else
      var f := Frame(false, t.color, t.key, t.val, t.left);
      assert (path + [f])[..|path|] == path;
      DescendRight(t.right, path + [f])
  }

  /**
   * The climbing loop of Rb_tree_increment: go up while the walk is a
   * right child; the first parent reached from its left is the successor,
   * and leaving the root reaches the header, i.e. end().
   */
  function ClimbRight<V>(t: Tree<V>, path: seq<Frame<V>>): (it: Iter<V>)
    requires t.Node?
    ensures it.At? ==> it.focus.Node?
    ensures TreeOf(it) == Plug(t, path) && Index(it) == |Before(path)| + Size(t)
    decreases |path|
  {
    if path == [] then End(t)
    else
      var f := path[|path| - 1];
      var init := path[..|path| - 1];
      if f.fromLeft then At(Attach(f, t), init)
      else ClimbRight(Attach(f, t), init)
  }

  /**
   * The climbing loop of Rb_tree_decrement: go up while the walk is a left
   * child; the first parent reached from its right is the predecessor.
   * Something precedes the subtree, so the root is never left.
   */
  function ClimbLeft<V>(t: Tree<V>, path: seq<Frame<V>>): (it: Iter<V>)
    requires t.Node? && |Before(path)| > 0
    ensures it.At? && it.focus.Node?
    ensures TreeOf(it) == Plug(t, path) && Index(it) == |Before(path)| - 1
    decreases |path|
  {
    var f := path[|path| - 1];
    var init := path[..|path| - 1];
    if f.fromLeft then ClimbLeft(Attach(f, t), init)
    else At(Attach(f, t), init)
  }

  /** begin(): the leftmost node, or end() on an empty tree. */
  function Begin<V>(t: Tree<V>): (it: Iter<V>)
    ensures it.At? ==> it.focus.Node?
    ensures TreeOf(it) == t && Index(it) == 0
  {
    if t.Leaf? then End(t) else DescendLeft(t, [])
  }

  /**
   * Rb_tree_increment: the leftmost node of the right subtree if there is
   * one, otherwise the climb.
   */
  function Increment<V>(it: Iter<V>): (r: Iter<V>)
    requires it.At? && it.focus.Node?
    ensures r.At? ==> r.focus.Node?
  {
    var t := it.focus;
    if t.right.Node? then
      DescendLeft(t.right, it.path + [Frame(false, t.color, t.key, t.val, t.left)])
    else
      ClimbRight(t, it.path)
  }

  /**
   * Rb_tree_decrement: end() (recognised through the header's colour and
   * parent link) steps to the rightmost node; otherwise the rightmost
   * node of the left subtree if there is one, otherwise the climb.
   * Decrementing begin() is undefined and excluded.
   */
  function Decrement<V>(it: Iter<V>): (r: Iter<V>)
    requires it.At? ==> it.focus.Node?
    requires Index(it) > 0
    ensures r.At? && r.focus.Node?
  {
    match it
    case End(root) => DescendRight(root, [])
    case At(t, path) =>
      if t.left.Node? then
        DescendRight(t.left, path + [Frame(true, t.color, t.key, t.val, t.right)])
      else
        ClimbLeft(t, path)
  }

  /** ++ walks the same tree and moves to the next position (possibly end()). */
  lemma IncrementNext<V>(it: Iter<V>)
    requires it.At? && it.focus.Node?
    ensures TreeOf(Increment(it)) == TreeOf(it)
    ensures Index(Increment(it)) == Index(it) + 1
  {
    var t := it.focus;
    var p := it.path;
    if t.right.Node? {
      var f := Frame(false, t.color, t.key, t.val, t.left);
      assert (p + [f])[..|p|] == p;
      assert Plug(t.right, p + [f]) == Plug(t, p);
    }
  }

  /** -- walks the same tree and moves to the previous position. */
  lemma DecrementPrevious<V>(it: Iter<V>)
    requires it.At? ==> it.focus.Node?
    requires Index(it) > 0
    ensures TreeOf(Decrement(it)) == TreeOf(it)
    ensures Index(Decrement(it)) == Index(it) - 1
  {
    if it.At? {
      var t := it.focus;
      var p := it.path;
      if t.left.Node? {
        var f := Frame(true, t.color, t.key, t.val, t.right);
        assert (p + [f])[..|p|] == p;
        assert Plug(t.left, p + [f]) == Plug(t, p);
      }
    }
  }
}
