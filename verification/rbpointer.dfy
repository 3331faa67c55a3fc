/**
 * A pointer-level transliteration of the rotations and of
 * Rb_tree_rebalance_for_erase (rb_tree.h:358-394, 467-595), over a heap of
 * node records addressed by integers. It exists to state what the erase
 * code does as written, next to the intended behaviour of module RbErase.
 *
 * Two defects are reproduced, each behind its own switch of `Code`:
 *  - every colour test and colour store of the fix-up reads S_red (false)
 *    as if it were black, so the loop runs after removing a RED node and
 *    repaints the wrong way;
 *  - when the successor y is z's own right child, x_parent is taken from
 *    y->M_parent, which is still z, the node being removed.
 * A dereference of nullptr is a Fault; so is running out of fuel.
 */
module RbPointer {
  import opened Wrappers
  import opened RbTree
  import RbErase

  /** Node addresses: 0 is nullptr, 1 the header, other values are nodes. */
  type Ptr = int

  const Null: Ptr := 0
  const Header: Ptr := 1

  /** One node: the header uses parent/left/right for root/leftmost/rightmost. */
  datatype Rec = Rec(parent: Ptr, left: Ptr, right: Ptr, color: Color, key: int)

  type Heap = map<Ptr, Rec>

  datatype Fault = NullDeref | OutOfFuel

  /** Which of the two defects the erase model reproduces. */
  datatype Code = Code(invertedColours: bool, staleParent: bool)

  const AsWritten: Code := Code(true, true)
  const Intended: Code := Code(false, false)

  function Load(h: Heap, p: Ptr): (r: Result<Rec, Fault>)
    ensures r.Success? <==> p != Null && p in h
  {
    if p != Null && p in h then Success(h[p]) else Failure(NullDeref)
  }

  function ParentOf(h: Heap, p: Ptr): Result<Ptr, Fault> { var n :- Load(h, p); Success(n.parent) }
  function LeftOf(h: Heap, p: Ptr): Result<Ptr, Fault> { var n :- Load(h, p); Success(n.left) }
  function RightOf(h: Heap, p: Ptr): Result<Ptr, Fault> { var n :- Load(h, p); Success(n.right) }
  function ColorAt(h: Heap, p: Ptr): Result<Color, Fault> { var n :- Load(h, p); Success(n.color) }

  function SetParent(h: Heap, p: Ptr, v: Ptr): Result<Heap, Fault>
  {
    var n :- Load(h, p); Success(h[p := n.(parent := v)])
  }

  function SetLeft(h: Heap, p: Ptr, v: Ptr): Result<Heap, Fault>
  {
    var n :- Load(h, p); Success(h[p := n.(left := v)])
  }

  function SetRight(h: Heap, p: Ptr, v: Ptr): Result<Heap, Fault>
  {
    var n :- Load(h, p); Success(h[p := n.(right := v)])
  }

  function SetColor(h: Heap, p: Ptr, c: Color): Result<Heap, Fault>
  {
    var n :- Load(h, p); Success(h[p := n.(color := c)])
  }

  /** Rb_tree_rotate_left(x, header), statement by statement. */
  function RotateLeftP(h: Heap, x: Ptr): Result<Heap, Fault>
  {
    var y :- RightOf(h, x);
    var yl :- LeftOf(h, y);
    var h1 :- SetRight(h, x, yl);
    var h2 :- if yl != Null then SetParent(h1, yl, x) else Success(h1);
    var xp :- ParentOf(h2, x);
    var h3 :- SetParent(h2, y, xp);
    var root :- ParentOf(h3, Header);
    var h4 :- if x == root then SetParent(h3, Header, y)
              else (var xpl :- LeftOf(h3, xp);
                    if x == xpl then SetLeft(h3, xp, y) else SetRight(h3, xp, y));
    var h5 :- SetLeft(h4, y, x);
    SetParent(h5, x, y)
  }

  /** Rb_tree_rotate_right(x, header), statement by statement. */
  function RotateRightP(h: Heap, x: Ptr): Result<Heap, Fault>
  {
    var y :- LeftOf(h, x);
    var yr :- RightOf(h, y);
    var h1 :- SetLeft(h, x, yr);
    var h2 :- if yr != Null then SetParent(h1, yr, x) else Success(h1);
    var xp :- ParentOf(h2, x);
    var h3 :- SetParent(h2, y, xp);
    var root :- ParentOf(h3, Header);
    var h4 :- if x == root then SetParent(h3, Header, y)
              else (var xpr :- RightOf(h3, xp);
                    if x == xpr then SetRight(h3, xp, y) else SetLeft(h3, xp, y));
    var h5 :- SetRight(h4, y, x);
    SetParent(h5, x, y)
  }

  /** The links a rotation may rely on: distinct live nodes, consistent parent links. */
  predicate RotatableLeft(h: Heap, x: Ptr)
  {
    Header in h && x != Null && x != Header && x in h &&
    var y := h[x].right;
    var yl := if y in h then h[y].left else Null;
    var xp := h[x].parent;
    y != Null && y != Header && y != x && y in h &&
    yl != x && yl != y && yl != Header && (yl != Null ==> yl in h) &&
    xp != x && xp != y && xp != yl && (xp == Header || xp in h) &&
    (h[Header].parent == x || (xp != Header && xp != Null && xp in h && (h[xp].left == x || h[xp].right == x)))
  }

  /**
   * A left rotation promotes y = x->M_right into x's place: y takes x's old
   * parent, the slot that held x (header.M_parent when x was the root) now
   * holds y, x becomes y's left child and y's old left subtree becomes x's
   * right subtree.
   */
  lemma RotateLeftLinks(h: Heap, x: Ptr)
    requires RotatableLeft(h, x)
    ensures RotateLeftP(h, x).Success?
    ensures var h' := RotateLeftP(h, x).value;
      var y := h[x].right;
      var xp := h[x].parent;
      h'[y].parent == xp && h'[y].left == x && h'[x].parent == y &&
      h'[x].right == h[y].left && h'[x].left == h[x].left && h'[y].right == h[y].right &&
      (h[y].left != Null ==> h'[h[y].left].parent == x) &&
      (h[Header].parent == x ==> h'[Header].parent == y) &&
      (h[Header].parent != x && h[xp].left == x ==> h'[xp].left == y && h'[xp].right == h[xp].right) &&
      (h[Header].parent != x && h[xp].left != x ==> h'[xp].right == y && h'[xp].left == h[xp].left)
  {
  }

  /** How the fix-up reads a stored colour: as written, S_red reads as black. */
  function ReadsBlack(code: Code, c: Color): bool
  {
    if code.invertedColours then c == Red else c == Black
  }

  /** The colour the code stores where the algorithm means black. */
  function Dark(code: Code): Color { if code.invertedColours then Red else Black }

  /** The colour the code stores where the algorithm means red. */
  function Light(code: Code): Color { if code.invertedColours then Black else Red }

  /** `p == nullptr || p is black`, as the code tests it. */
  function NullOrBlack(h: Heap, code: Code, p: Ptr): Result<bool, Fault>
  {
    if p == Null then Success(true) else var c :- ColorAt(h, p); Success(ReadsBlack(code, c))
  }

  /** `p && p is red`, as the code tests it. */
  function NonNullRed(h: Heap, code: Code, p: Ptr): Result<bool, Fault>
  {
    if p == Null then Success(false) else var c :- ColorAt(h, p); Success(!ReadsBlack(code, c))
  }

  function MinimumP(h: Heap, x: Ptr, fuel: nat): Result<Ptr, Fault>
    decreases fuel
  {
    if fuel == 0 then Failure(OutOfFuel)
    else var l :- LeftOf(h, x); if l == Null then Success(x) else MinimumP(h, l, fuel - 1)
  }

  function MaximumP(h: Heap, x: Ptr, fuel: nat): Result<Ptr, Fault>
    decreases fuel
  {
    if fuel == 0 then Failure(OutOfFuel)
    else var r :- RightOf(h, x); if r == Null then Success(x) else MaximumP(h, r, fuel - 1)
  }

  /**
   * z has two children and y is its successor: y is unlinked and relinked in
   * z's place with z's colour (rb_tree.h:487-510). Returns the heap and
   * x_parent.
   */
  function RelinkSuccessor(h: Heap, z: Ptr, y: Ptr, x: Ptr, code: Code): Result<(Heap, Ptr), Fault>
  {
    var zl :- LeftOf(h, z);
    var h1 :- if zl != Null then (var g :- SetParent(h, zl, y); SetLeft(g, y, zl)) else Success(h);
    var zr :- RightOf(h1, z);
    var hx :- if y != zr then
                (var yp :- ParentOf(h1, y);
                 var g1 :- if x != Null then SetParent(h1, x, yp) else Success(h1);
                 var g2 :- SetLeft(g1, yp, x);
                 var zr2 :- RightOf(g2, z);
                 var g3 :- SetRight(g2, y, zr2);
                 var g4 :- SetParent(g3, zr2, y);
                 Success((g4, yp)))
              else
                (var yp :- ParentOf(h1, y); Success((h1, if code.staleParent then yp else y)));
    var h2 := hx.0;
    var root :- ParentOf(h2, Header);
    var h3 :- if root == z then SetParent(h2, Header, y)
              else (var zp :- ParentOf(h2, z);
                    var zpl :- LeftOf(h2, zp);
                    if zpl == z then SetLeft(h2, zp, y) else SetRight(h2, zp, y));
    var zp :- ParentOf(h3, z);
    var h4 :- SetParent(h3, y, zp);
    var yc :- ColorAt(h4, y);
    var zc :- ColorAt(h4, z);
    var h5 :- SetColor(h4, y, zc);
    var h6 :- SetColor(h5, z, yc);
    Success((h6, hx.1))
  }

  /**
   * z has at most one child x: x takes z's place, and the header's leftmost
   * and rightmost are recomputed when z was one of them (rb_tree.h:510-525).
   */
  function SpliceOut(h: Heap, z: Ptr, x: Ptr, fuel: nat): Result<(Heap, Ptr), Fault>
  {
    var zp :- ParentOf(h, z);
    var h1 :- if x != Null then SetParent(h, x, zp) else Success(h);
    var root :- ParentOf(h1, Header);
    var h2 :- if root == z then SetParent(h1, Header, x)
              else (var zpl :- LeftOf(h1, zp);
                    if zpl == z then SetLeft(h1, zp, x) else SetRight(h1, zp, x));
    var lm :- LeftOf(h2, Header);
    var h3 :- if lm == z then
                (var zr :- RightOf(h2, z);
                 var nl :- if zr == Null then ParentOf(h2, z) else MinimumP(h2, x, fuel);
                 SetLeft(h2, Header, nl))
              else Success(h2);
    var rm :- RightOf(h3, Header);
    var h4 :- if rm == z then
                (var zl :- LeftOf(h3, z);
                 var nr :- if zl == Null then ParentOf(h3, z) else MaximumP(h3, x, fuel);
                 SetRight(h3, Header, nr))
              else Success(h3);
    Success((h4, zp))
  }

  /** The fix-up loop of rb_tree.h:529-589 followed by the final recolour of x. */
  function FixupLoop(h: Heap, x: Ptr, xp: Ptr, code: Code, fuel: nat): Result<Heap, Fault>
    decreases fuel
  {
    if fuel == 0 then Failure(OutOfFuel) else
    var root :- ParentOf(h, Header);
    var blackish :- NullOrBlack(h, code, x);
    if !(x != root && blackish) then
      (if x != Null then SetColor(h, x, Dark(code)) else Success(h))
    else
      var xpl :- LeftOf(h, xp);
      if x == xpl then
        var w0 :- RightOf(h, xp);
        var caseA :- NonNullRed(h, code, w0);
        var hw :- if caseA then
                    (var g1 :- SetColor(h, w0, Dark(code));
                     var g2 :- SetColor(g1, xp, Light(code));
                     var g3 :- RotateLeftP(g2, xp);
                     var w1 :- RightOf(g3, xp);
                     Success((g3, w1)))
                  else Success((h, w0));
        var h1, w := hw.0, hw.1;
        var wl :- LeftOf(h1, w);
        var wr :- RightOf(h1, w);
        var blackL :- NullOrBlack(h1, code, wl);
        var blackR :- NullOrBlack(h1, code, wr);
        if blackL && blackR then
          var h2 :- SetColor(h1, w, Light(code));
          var xpp :- ParentOf(h2, xp);
          FixupLoop(h2, xp, xpp, code, fuel - 1)
        else
          var hw2 :- if blackR then
                       (var g1 :- if wl != Null then SetColor(h1, wl, Dark(code)) else Success(h1);
                        var g2 :- SetColor(g1, w, Light(code));
                        var g3 :- RotateRightP(g2, w);
                        var w1 :- RightOf(g3, xp);
                        Success((g3, w1)))
                     else Success((h1, w));
          var h2, w2 := hw2.0, hw2.1;
          var xpc :- ColorAt(h2, xp);
          var h3 :- SetColor(h2, w2, xpc);
          var h4 :- SetColor(h3, xp, Dark(code));
          var w2r :- RightOf(h4, w2);
          var h5 :- if w2r != Null then SetColor(h4, w2r, Dark(code)) else Success(h4);
          var h6 :- RotateLeftP(h5, xp);
          var root2 :- ParentOf(h6, Header);
          FixupLoop(h6, root2, xp, code, fuel - 1)
      else
        var w0 := xpl;
        var caseA :- NonNullRed(h, code, w0);
        var hw :- if caseA then
                    (var g1 :- SetColor(h, w0, Dark(code));
                     var g2 :- SetColor(g1, xp, Light(code));
                     var g3 :- RotateRightP(g2, xp);
                     var w1 :- LeftOf(g3, xp);
                     Success((g3, w1)))
                  else Success((h, w0));
        var h1, w := hw.0, hw.1;
        var wr :- RightOf(h1, w);
        var wl :- LeftOf(h1, w);
        var blackR :- NullOrBlack(h1, code, wr);
        var blackL :- NullOrBlack(h1, code, wl);
        if blackR && blackL then
          var h2 :- SetColor(h1, w, Light(code));
          var xpp :- ParentOf(h2, xp);
          FixupLoop(h2, xp, xpp, code, fuel - 1)
        else
          var hw2 :- if blackL then
                       (var g1 :- if wr != Null then SetColor(h1, wr, Dark(code)) else Success(h1);
                        var g2 :- SetColor(g1, w, Light(code));
                        var g3 :- RotateLeftP(g2, w);
                        var w1 :- LeftOf(g3, xp);
                        Success((g3, w1)))
                     else Success((h1, w));
          var h2, w2 := hw2.0, hw2.1;
          var xpc :- ColorAt(h2, xp);
          var h3 :- SetColor(h2, w2, xpc);
          var h4 :- SetColor(h3, xp, Dark(code));
          var w2l :- LeftOf(h4, w2);
          var h5 :- if w2l != Null then SetColor(h4, w2l, Dark(code)) else Success(h4);
          var h6 :- RotateRightP(h5, xp);
          var root2 :- ParentOf(h6, Header);
          FixupLoop(h6, root2, xp, code, fuel - 1)
  }

  /**
   * Rb_tree_rebalance_for_erase(z, header): unlinks z, runs the fix-up when
   * the removed colour reads as black, paints a non-null root black, and
   * returns the node to free.
   */
  function RebalanceForErase(h: Heap, z: Ptr, code: Code, fuel: nat): Result<(Heap, Ptr), Fault>
  {
    var zl :- LeftOf(h, z);
    var zr :- RightOf(h, z);
    var yx :- if zl == Null then Success((z, zr))
              else if zr == Null then Success((z, zl))
              else (var m :- MinimumP(h, zr, fuel); var mr :- RightOf(h, m); Success((m, mr)));
    var y, x := yx.0, yx.1;
    var st :- if y != z then RelinkSuccessor(h, z, y, x, code) else SpliceOut(h, z, x, fuel);
    var h1, xp := st.0, st.1;
    var removed :- ColorAt(h1, z);
    var h2 :- if ReadsBlack(code, removed) then FixupLoop(h1, x, xp, code, fuel) else Success(h1);
    var root :- ParentOf(h2, Header);
    var h3 :- if root != Null then SetColor(h2, root, Black) else Success(h2);
    Success((h3, z))
  }

  /** Reads the heap back as a functional tree (None on a cycle deeper than fuel). */
  function ToTree(h: Heap, p: Ptr, fuel: nat): Option<Tree<()>>
    decreases fuel
  {
    if p == Null then Some(Leaf)
    else if fuel == 0 || p !in h then None
    else
      match (ToTree(h, h[p].left, fuel - 1), ToTree(h, h[p].right, fuel - 1))
      case (Some(l), Some(r)) => Some(Node(h[p].color, l, h[p].key, (), r))
      case _ => None
  }

  function TreeOf(h: Heap): Option<Tree<()>>
  {
    if Header in h then ToTree(h, h[Header].parent, 8) else None
  }

  /** Erases node z of heap h and reads back the resulting tree. */
  function EraseP(h: Heap, z: Ptr, code: Code): Result<Option<Tree<()>>, Fault>
  {
    var r :- RebalanceForErase(h, z, code, 8);
    Success(TreeOf(r.0))
  }

  /** Header 1; root 2 = 20 black; 3 = 10 and 4 = 30 its children, coloured c. */
  function ThreeNodes(c: Color): Heap
  {
    map[Header := Rec(2, 3, 4, Red, 0),
        2 := Rec(Header, 3, 4, Black, 20),
        3 := Rec(2, Null, Null, c, 10),
        4 := Rec(2, Null, Null, c, 30)]
  }

  lemma ThreeNodesValid()
    ensures TreeOf(ThreeNodes(Red)) ==
      Some(Node(Black, Node(Red, Leaf, 10, (), Leaf), 20, (), Node(Red, Leaf, 30, (), Leaf)))
    ensures Valid(TreeOf(ThreeNodes(Red)).value) && Valid(TreeOf(ThreeNodes(Black)).value)
  {
    ThreeNodesTree(Red);
    ThreeNodesTree(Black);
    assert Valid(Node(Black, Node(Red, Leaf, 10, (), Leaf), 20, (), Node(Red, Leaf, 30, (), Leaf)));
    assert Valid(Node(Black, Node(Black, Leaf, 10, (), Leaf), 20, (), Node(Black, Leaf, 30, (), Leaf)));
  }

  lemma ThreeNodesTree(c: Color)
    ensures TreeOf(ThreeNodes(c)) ==
      Some(Node(Black, Node(c, Leaf, 10, (), Leaf), 20, (), Node(c, Leaf, 30, (), Leaf)))
  {
  }

  /**
   * As written, erasing the red leaf 10 of {20B, 10R, 30R} runs the fix-up
   * (the removed node reads as black) and repaints 30 black: the result is
   * no longer balanced. The intended code leaves 20B with its red child 30.
   */
  lemma ColourInversionUnbalances()
    ensures EraseP(ThreeNodes(Red), 3, AsWritten) ==
      Success(Some(Node(Black, Leaf, 20, (), Node(Black, Leaf, 30, (), Leaf))))
    ensures !Valid(EraseP(ThreeNodes(Red), 3, AsWritten).value.value)
    ensures EraseP(ThreeNodes(Red), 3, Intended) ==
      Success(Some(Node(Black, Leaf, 20, (), Node(Red, Leaf, 30, (), Leaf))))
  {
    LeafEraseAsWritten();
    LeafEraseIntended();
  }

  /** ThreeNodes(Red) after 10 is spliced out: 20 has no left child and is the leftmost; 30 coloured c. */
  function LeafSpliced(c: Color): Heap
  {
    map[Header := Rec(2, 2, 4, Red, 0),
        2 := Rec(Header, Null, 4, Black, 20),
        3 := Rec(2, Null, Null, Red, 10),
        4 := Rec(2, Null, Null, c, 30)]
  }

  lemma LeafSplice()
    ensures SpliceOut(ThreeNodes(Red), 3, Null, 8) == Success((LeafSpliced(Red), 2))
  {
    var h := ThreeNodes(Red);
    var g1 := h[2 := Rec(Header, Null, 4, Black, 20)];
    assert SetLeft(h, 2, Null) == Success(g1);
    var g2 := g1[Header := Rec(2, 2, 4, Red, 0)];
    assert SetLeft(g1, Header, 2) == Success(g2);
    assert g2 == LeafSpliced(Red);
  }

  lemma LeafEraseAsWritten()
    ensures EraseP(ThreeNodes(Red), 3, AsWritten) ==
      Success(Some(Node(Black, Leaf, 20, (), Node(Black, Leaf, 30, (), Leaf))))
  {
    LeafSplice();
    var s, s1 := LeafSpliced(Red), LeafSpliced(Black);
    assert s[4 := Rec(2, Null, Null, Black, 30)] == s1;
    assert SetColor(s, 4, Black) == Success(s1);
    assert FixupLoop(s, Null, 2, AsWritten, 8) == FixupLoop(s1, 2, Header, AsWritten, 7);
    var s2 := s1[2 := Rec(Header, Null, 4, Red, 20)];
    assert FixupLoop(s1, 2, Header, AsWritten, 7) == Success(s2);
    assert s2[2 := Rec(Header, Null, 4, Black, 20)] == s1;
    assert RebalanceForErase(ThreeNodes(Red), 3, AsWritten, 8) == Success((s1, 3));
    assert TreeOf(s1) == Some(Node(Black, Leaf, 20, (), Node(Black, Leaf, 30, (), Leaf)));
  }

  lemma LeafEraseIntended()
    ensures EraseP(ThreeNodes(Red), 3, Intended) ==
      Success(Some(Node(Black, Leaf, 20, (), Node(Red, Leaf, 30, (), Leaf))))
  {
    LeafSplice();
    var s := LeafSpliced(Red);
    assert s[2 := Rec(Header, Null, 4, Black, 20)] == s;
    assert RebalanceForErase(ThreeNodes(Red), 3, Intended, 8) == Success((s, 3));
    assert TreeOf(s) == Some(Node(Black, Leaf, 20, (), Node(Red, Leaf, 30, (), Leaf)));
  }

  /** Header 1; root 2 = 10 black with the red left child 3 = 5. */
  function TwoNodes(): Heap
  {
    map[Header := Rec(2, 3, 2, Red, 0),
        2 := Rec(Header, 3, Null, Black, 10),
        3 := Rec(2, Null, Null, Red, 5)]
  }

  /**
   * As written, erasing the red leaf 5 of {10B, 5R} enters the fix-up with a
   * null x whose sibling is null too, and dereferences it.
   */
  lemma ColourInversionFaults()
    ensures EraseP(TwoNodes(), 3, AsWritten) == Failure(NullDeref)
    ensures EraseP(TwoNodes(), 3, Intended) == Success(Some(Node(Black, Leaf, 10, (), Leaf)))
  {
  }

  /**
   * Relinking the successor 30 into the place of the root 20 of
   * ThreeNodes(c): 30 takes the root's colour, 20 keeps 30's, and x_parent
   * is 20 itself when taken from the stale link.
   */
  lemma RelinkThree(c: Color, code: Code)
    ensures RelinkSuccessor(ThreeNodes(c), 2, 4, Null, code) ==
      Success((map[Header := Rec(4, 3, 4, Red, 0),
                   2 := Rec(Header, 3, 4, c, 20),
                   3 := Rec(4, Null, Null, c, 10),
                   4 := Rec(Header, 3, Null, Black, 30)],
               if code.staleParent then 2 else 4))
  {
    var h := ThreeNodes(c);
    var a1 := h[3 := Rec(4, Null, Null, c, 10)];
    assert SetParent(h, 3, 4) == Success(a1);
    var a2 := a1[4 := Rec(2, 3, Null, c, 30)];
    assert SetLeft(a1, 4, 3) == Success(a2);
    var a3 := a2[Header := Rec(4, 3, 4, Red, 0)];
    assert SetParent(a2, Header, 4) == Success(a3);
    var a4 := a3[4 := Rec(Header, 3, Null, c, 30)];
    assert SetParent(a3, 4, Header) == Success(a4);
    var a5 := a4[4 := Rec(Header, 3, Null, Black, 30)];
    assert SetColor(a4, 4, Black) == Success(a5);
    var a6 := a5[2 := Rec(Header, 3, 4, c, 20)];
    assert SetColor(a5, 2, c) == Success(a6);
    assert RightOf(a2, 2) == Success(4);
    assert ParentOf(a2, 4) == Success(2);
    assert ParentOf(a2, Header) == Success(2);
    assert ParentOf(a3, 2) == Success(Header);
    assert ColorAt(a4, 4) == Success(c) && ColorAt(a4, 2) == Success(Black);
    assert a6 == map[Header := Rec(4, 3, 4, Red, 0),
                     2 := Rec(Header, 3, 4, c, 20),
                     3 := Rec(4, Null, Null, c, 10),
                     4 := Rec(Header, 3, Null, Black, 30)];
  }

  /**
   * The header mistaken for x_parent and rotated right: its left link (the
   * next sibling the loop reads) becomes null. `c3` is 10's colour.
   */
  lemma RotateHeaderThree(c2: Color, c3: Color, hc: Color)
    ensures RotateRightP(map[Header := Rec(4, 3, 4, hc, 0),
                             2 := Rec(Header, 3, 4, c2, 20),
                             3 := Rec(4, Null, Null, c3, 10),
                             4 := Rec(Header, 3, Null, Black, 30)], Header) ==
      Success(map[Header := Rec(3, Null, 4, hc, 0),
                  2 := Rec(Header, 3, 4, c2, 20),
                  3 := Rec(4, Null, Header, c3, 10),
                  4 := Rec(Header, 3, Null, Black, 30)])
  {
    var g := map[Header := Rec(4, 3, 4, hc, 0),
                 2 := Rec(Header, 3, 4, c2, 20),
                 3 := Rec(4, Null, Null, c3, 10),
                 4 := Rec(Header, 3, Null, Black, 30)];
    var b1 := g[Header := Rec(4, Null, 4, hc, 0)];
    assert SetLeft(g, Header, Null) == Success(b1);
    var b2 := b1[3 := Rec(4, Null, Null, c3, 10)];
    assert SetParent(b1, 3, 4) == Success(b2);
    var b3 := b2[4 := Rec(Header, 3, Null, Black, 30)];
    assert SetLeft(b2, 4, 3) == Success(b3);
    var b4 := b3[3 := Rec(4, Null, Header, c3, 10)];
    assert SetRight(b3, 3, Header) == Success(b4);
    var b5 := b4[Header := Rec(3, Null, 4, hc, 0)];
    assert SetParent(b4, Header, 3) == Success(b5);
    assert b5 == map[Header := Rec(3, Null, 4, hc, 0),
                     2 := Rec(Header, 3, 4, c2, 20),
                     3 := Rec(4, Null, Header, c3, 10),
                     4 := Rec(Header, 3, Null, Black, 30)];
  }

  /**
   * With the colours read correctly but x_parent taken from the successor's
   * stale parent link, erasing the root of the all-black {20, 10, 30} (whose
   * successor 30 is its right child) runs the fix-up from the freed node
   * 20, climbs to the header, rotates it, and dereferences null.
   */
  lemma StaleParentFaults()
    ensures EraseP(ThreeNodes(Black), 2, Code(false, true)) == Failure(NullDeref)
  {
    var code := Code(false, true);
    assert MinimumP(ThreeNodes(Black), 4, 8) == Success(4);
    RelinkThree(Black, code);
    var h1 := map[Header := Rec(4, 3, 4, Red, 0),
                  2 := Rec(Header, 3, 4, Black, 20),
                  3 := Rec(4, Null, Null, Black, 10),
                  4 := Rec(Header, 3, Null, Black, 30)];
    var h2 := h1[3 := Rec(4, Null, Null, Red, 10)];
    assert SetColor(h1, 3, Red) == Success(h2);
    assert FixupLoop(h1, Null, 2, code, 8) == FixupLoop(h2, 2, Header, code, 7);
    var g1 := h2[3 := Rec(4, Null, Null, Black, 10)];
    assert SetColor(h2, 3, Black) == Success(g1);
    var g2 := g1[Header := Rec(4, 3, 4, Red, 0)];
    assert SetColor(g1, Header, Red) == Success(g2);
    assert g2 == map[Header := Rec(4, 3, 4, Red, 0),
                     2 := Rec(Header, 3, 4, Black, 20),
                     3 := Rec(4, Null, Null, Black, 10),
                     4 := Rec(Header, 3, Null, Black, 30)];
    RotateHeaderThree(Black, Black, Red);
    assert FixupLoop(h2, 2, Header, code, 7) == Failure(NullDeref);
  }

  /** As written, erasing the root of {20B, 10R, 30R} faults the same way. */
  lemma AsWrittenRootEraseFaults()
    ensures EraseP(ThreeNodes(Red), 2, AsWritten) == Failure(NullDeref)
  {
    var code := AsWritten;
    assert MinimumP(ThreeNodes(Red), 4, 8) == Success(4);
    RelinkThree(Red, code);
    var h1 := map[Header := Rec(4, 3, 4, Red, 0),
                  2 := Rec(Header, 3, 4, Red, 20),
                  3 := Rec(4, Null, Null, Red, 10),
                  4 := Rec(Header, 3, Null, Black, 30)];
    var h2 := h1[3 := Rec(4, Null, Null, Black, 10)];
    assert SetColor(h1, 3, Black) == Success(h2);
    assert FixupLoop(h1, Null, 2, code, 8) == FixupLoop(h2, 2, Header, code, 7);
    var g1 := h2[3 := Rec(4, Null, Null, Red, 10)];
    assert SetColor(h2, 3, Red) == Success(g1);
    var g2 := g1[Header := Rec(4, 3, 4, Black, 0)];
    assert SetColor(g1, Header, Black) == Success(g2);
    assert g2 == map[Header := Rec(4, 3, 4, Black, 0),
                     2 := Rec(Header, 3, 4, Red, 20),
                     3 := Rec(4, Null, Null, Red, 10),
                     4 := Rec(Header, 3, Null, Black, 30)];
    RotateHeaderThree(Red, Red, Black);
    assert FixupLoop(h2, 2, Header, code, 7) == Failure(NullDeref);
  }

  /**
   * With both defects repaired, the same erase gives 30B over a red 10,
   * which is what the functional erase of module RbErase computes.
   */
  lemma StaleParentFixed()
    ensures EraseP(ThreeNodes(Black), 2, Intended) ==
      Success(Some(Node(Black, Node(Red, Leaf, 10, (), Leaf), 30, (), Leaf)))
    ensures EraseP(ThreeNodes(Black), 2, Intended) ==
      Success(Some(RbErase.EraseAt(TreeOf(ThreeNodes(Black)).value, 1)))
  {
    RootEraseIntended();
    ThreeNodesTree(Black);
    assert RbErase.EraseAt(Node(Black, Node(Black, Leaf, 10, (), Leaf), 20, (), Node(Black, Leaf, 30, (), Leaf)), 1) ==
      Node(Black, Node(Red, Leaf, 10, (), Leaf), 30, (), Leaf);
  }

  lemma RootEraseIntended()
    ensures EraseP(ThreeNodes(Black), 2, Intended) ==
      Success(Some(Node(Black, Node(Red, Leaf, 10, (), Leaf), 30, (), Leaf)))
  {
    var code := Intended;
    assert MinimumP(ThreeNodes(Black), 4, 8) == Success(4);
    RelinkThree(Black, code);
    var h1 := map[Header := Rec(4, 3, 4, Red, 0),
                  2 := Rec(Header, 3, 4, Black, 20),
                  3 := Rec(4, Null, Null, Black, 10),
                  4 := Rec(Header, 3, Null, Black, 30)];
    var h2 := h1[3 := Rec(4, Null, Null, Red, 10)];
    assert SetColor(h1, 3, Red) == Success(h2);
    assert FixupLoop(h1, Null, 4, code, 8) == FixupLoop(h2, 4, Header, code, 7);
    assert SetColor(h2, 4, Black) == Success(h2[4 := Rec(Header, 3, Null, Black, 30)]);
    assert h2[4 := Rec(Header, 3, Null, Black, 30)] == h2;
    assert FixupLoop(h2, 4, Header, code, 7) == Success(h2);
    assert RebalanceForErase(ThreeNodes(Black), 2, code, 8) == Success((h2, 2));
    assert TreeOf(h2) == Some(Node(Black, Node(Red, Leaf, 10, (), Leaf), 30, (), Leaf));
  }

  /** On a leaf erase the intended pointer code agrees with the functional erase. */
  lemma IntendedMatchesFunctionalLeaf()
    ensures EraseP(ThreeNodes(Red), 3, Intended) ==
      Success(Some(RbErase.EraseAt(TreeOf(ThreeNodes(Red)).value, 0)))
  {
    LeafEraseIntended();
    ThreeNodesTree(Red);
    assert RbErase.EraseAt(Node(Black, Node(Red, Leaf, 10, (), Leaf), 20, (), Node(Red, Leaf, 30, (), Leaf)), 0) ==
      Node(Black, Leaf, 20, (), Node(Red, Leaf, 30, (), Leaf));
  }
}
