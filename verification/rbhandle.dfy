/**
 * Node_handle_common of rb_tree.h: a handle owns at most one extracted
 * node. The allocator that travels with the node is not modelled, so a
 * handle is the optional node it points at; it is empty exactly when that
 * pointer is null. Operations that free a node report the node freed.
 */
module NodeHandle {
  import opened Wrappers

  /** The node a handle owns, or None for the null pointer. */
  type Handle<T> = Option<T>

  /** The outcome of an operation on two handles: both handles and the node freed, if any. */
  datatype Moved<T> = Moved(dst: Handle<T>, src: Handle<T>, freed: Option<T>)

  /**
   * The move constructor: take over the pointer, and when it was non-null
   * move the allocator and null the source.
   */
  function MoveConstruct<T>(nh: Handle<T>): (r: (Handle<T>, Handle<T>))
    ensures r.0 == nh && r.1.None?
  {
    match nh
    case None => (None, None)
    case Some(n) => (Some(n), None)
  }

  /**
   * The move assignment, branch by branch: an empty target takes the
   * source's node if there is one; a full target with an empty source is
   * reset (its node freed); otherwise the old node is freed and the
   * source's node taken over.
   */
  function MoveAssign<T>(dst: Handle<T>, src: Handle<T>): (r: Moved<T>)
    ensures r.dst == src && r.src.None?
    ensures r.freed == dst
  {
    if dst.None? then
      if src.Some? then Moved(src, None, None) else Moved(dst, src, None)
    else if src.None? then
      var (h, freed) := Reset(dst);
      Moved(h, src, Some(freed))
    else
      Moved(src, None, dst)
  }

  /**
   * _M_swap: an empty side takes the other's node, and two full handles
   * exchange pointers; nothing is freed.
   */
  function Swap<T>(a: Handle<T>, b: Handle<T>): (r: (Handle<T>, Handle<T>))
    ensures r.0 == b && r.1 == a
  {
    if a.None? then
      if b.Some? then (b, None) else (a, b)
    else if b.None? then
      (None, a)
    else
      (b, a)
  }

  /**
   * _M_reset: destroy and deallocate the owned node; the handle ends empty
   * and the node it owned is the one freed.
   */
  function Reset<T>(h: Handle<T>): (r: (Handle<T>, T))
    requires h.Some?
    ensures Owned(r.0) + multiset{r.1} == Owned(h)
    ensures Owned(r.0) == multiset{}
  {
    (None, h.value)
  }

  /** release: forget the node without freeing it (its owner is now a tree). */
  function Release<T>(h: Handle<T>): Handle<T>
    requires h.Some?
  {
    None
  }

  /** The destructor frees the node of a non-empty handle and nothing otherwise. */
  function Destroy<T>(h: Handle<T>): (freed: Option<T>)
    ensures freed == h
  {
    if h.None? then None else Some(Reset(h).1)
  }

  /** Swapping twice restores both handles. */
  lemma SwapInvolutive<T>(a: Handle<T>, b: Handle<T>)
    ensures Swap(Swap(a, b).0, Swap(a, b).1) == (a, b)
  {
  }

  /**
   * Ownership is conserved by a move assignment: the nodes owned before
   * are the nodes owned or freed afterwards, each exactly once.
   */
  lemma MoveAssignConserves<T>(dst: Handle<T>, src: Handle<T>)
    ensures var r := MoveAssign(dst, src);
      Owned(r.dst) + Owned(r.src) + Owned(r.freed) == Owned(dst) + Owned(src)
  {
  }

  /** The nodes a handle owns, as a multiset of zero or one node. */
  ghost function Owned<T>(h: Handle<T>): multiset<T>
  {
    if h.None? then multiset{} else multiset{h.value}
  }
}
