/**
 * M_merge_unique and M_merge_equal of rb_tree.h: walk the source tree in
 * order and move each node that the destination's insertion policy
 * accepts, unlinking it from the source (Rb_tree_rebalance_for_erase and
 * one node fewer) and linking it at the position the destination's finder
 * returned. Both trees use the same comparator here.
 */
module RbMerge {
  import opened RbTree
  import opened RbPolicy
  import opened RbContainer

  /** The keys present in a sequence of entries. */
  function KeySet<V>(s: seq<Entry<V>>): set<int>
  {
    set j | 0 <= j < |s| :: s[j].key
  }

  /**
   * How a unique merge splits the source sequence when the destination
   * starts with the keys in d: an entry moves when its key is neither in d
   * nor on an entry moved before it, and stays otherwise.
   */
  function Sift<V>(s: seq<Entry<V>>, d: set<int>): (r: (seq<Entry<V>>, seq<Entry<V>>))
    ensures |r.0| + |r.1| == |s|
    decreases |s|
  {
    if s == [] then ([], [])
    else
      var (moved, kept) := Sift(s[..|s| - 1], d);
      var e := s[|s| - 1];
      if e.key in d + KeySet(moved) then (moved, kept + [e])
      else (moved + [e], kept)
  }

  /** The split loses nothing: moved and kept entries together are the source's entries. */
  lemma {:induction false} SiftPartitions<V>(s: seq<Entry<V>>, d: set<int>)
    ensures multiset(Sift(s, d).0) + multiset(Sift(s, d).1) == multiset(s)
    decreases |s|
  {
    if s != [] {
      var init := s[..|s| - 1];
      SiftPartitions(init, d);
      assert s == init + [s[|s| - 1]];
    }
  }

  /**
   * The moved keys are exactly the source keys the destination lacked,
   * and the destination's keys plus the moved ones cover every kept key.
   */
  lemma {:induction false} SiftKeys<V>(s: seq<Entry<V>>, d: set<int>)
    ensures d + KeySet(Sift(s, d).0) == d + KeySet(s)
    ensures forall j :: 0 <= j < |Sift(s, d).1| ==> Sift(s, d).1[j].key in d + KeySet(Sift(s, d).0)
    decreases |s|
  {
    if s != [] {
      var init := s[..|s| - 1];
      var e := s[|s| - 1];
      SiftKeys(init, d);
      assert s == init + [e];
      var (moved, kept) := Sift(init, d);
      KeySetSnoc(init, e);
      KeySetSnoc(moved, e);
    }
  }

  /** Moved entries have keys new to the destination and pairwise distinct. */
  lemma {:induction false} SiftFresh<V>(s: seq<Entry<V>>, d: set<int>)
    ensures forall j :: 0 <= j < |Sift(s, d).0| ==> Sift(s, d).0[j].key !in d
    ensures forall i, j :: 0 <= i < j < |Sift(s, d).0| ==> Sift(s, d).0[i].key != Sift(s, d).0[j].key
    decreases |s|
  {
    if s != [] {
      var init := s[..|s| - 1];
      var e := s[|s| - 1];
      SiftFresh(init, d);
      var moved := Sift(init, d).0;
      if e.key !in d + KeySet(moved) {
        forall j | 0 <= j < |moved| ensures moved[j].key != e.key {
          assert moved[j].key in KeySet(moved);
        }
      }
    }
  }

  lemma KeySetSnoc<V>(s: seq<Entry<V>>, e: Entry<V>)
    ensures KeySet(s + [e]) == KeySet(s) + {e.key}
  {
    var u := s + [e];
    forall k | k in KeySet(u) ensures k in KeySet(s) + {e.key} {
      var j :| 0 <= j < |u| && u[j].key == k;
      if j < |s| { assert s[j].key == k; }
    }
    forall k | k in KeySet(s) + {e.key} ensures k in KeySet(u) {
      if k == e.key { assert u[|s|].key == k; }
      else {
        var j :| 0 <= j < |s| && s[j].key == k;
        assert u[j].key == k;
      }
    }
  }

  /** Inserting an entry anywhere adds its key and keeps the others. */
  lemma KeySetInsert<V>(s: seq<Entry<V>>, g: nat, e: Entry<V>)
    requires g <= |s|
    ensures KeySet(s[..g] + [e] + s[g..]) == KeySet(s) + {e.key}
  {
    var u := s[..g] + [e] + s[g..];
    forall k | k in KeySet(u) ensures k in KeySet(s) + {e.key} {
      var j :| 0 <= j < |u| && u[j].key == k;
      if j < g { assert s[j].key == k; }
      else if j > g { assert s[j - 1].key == k; }
    }
    forall k | k in KeySet(s) + {e.key} ensures k in KeySet(u) {
      if k == e.key { assert u[g].key == k; }
      else {
        var j :| 0 <= j < |s| && s[j].key == k;
        if j < g { assert u[j].key == k; } else { assert u[j + 1].key == k; }
      }
    }
  }

  /** An entry with a key outside a unique-key sequence has no match in it. */
  lemma KeyAbsent<V>(s: seq<Entry<V>>, k: int)
    ensures k !in KeySet(s) <==> forall j :: 0 <= j < |s| ==> s[j].key != k
  {
    if k in KeySet(s) {
      var j :| 0 <= j < |s| && s[j].key == k;
    }
  }

  /**
   * The merge state: the destination holds its own entries plus the moved
   * ones, and the source holds the kept entries followed by the rest still
   * to visit, the next of which sits at position i.
   */
  ghost predicate MergeState<V>(dst: Header<V>, d: Header<V>, r: Header<V>, i: nat,
                                moved: seq<Entry<V>>, kept: seq<Entry<V>>, rest: seq<Entry<V>>)
  {
    Inv(d) && Inv(r) && UniqueKeys(Elems(d.root)) &&
    i == |kept| && Elems(r.root) == kept + rest &&
    multiset(Elems(d.root)) == multiset(Elems(dst.root)) + multiset(moved) &&
    KeySet(Elems(d.root)) == KeySet(Elems(dst.root)) + KeySet(moved)
  }

  /** What holds after the merge loop has visited the first p source entries. */
  ghost predicate UniqueLoop<V>(dst: Header<V>, s: seq<Entry<V>>, d: Header<V>, r: Header<V>, i: nat, p: nat)
  {
    p <= |s| &&
    var split := Sift(s[..p], KeySet(Elems(dst.root)));
    MergeState(dst, d, r, i, split.0, split.1, s[p..])
  }

  /**
   * One turn of the merge loop at source position i: move the node if
   * the destination's unique finder offers a slot (the next node then
   * sits at i), otherwise step past it.
   */
  function UniqueStep<V>(d: Header<V>, r: Header<V>, i: nat): (x: (Header<V>, Header<V>, nat))
    requires Inv(d) && Inv(r) && i < Size(r.root)
  {
    var e := Elems(r.root)[i];
    var res := InsertUnique(d, e);
    if res.2 then (res.0, EraseAux(r, i), i) else (d, r, i + 1)
  }

  /** Sift extended by one entry. */
  lemma SiftSnoc<V>(s: seq<Entry<V>>, ks: set<int>, p: nat)
    requires p < |s|
    ensures var (moved, kept) := Sift(s[..p], ks);
      Sift(s[..p + 1], ks) ==
        if s[p].key in ks + KeySet(moved) then (moved, kept + [s[p]]) else (moved + [s[p]], kept)
  {
    assert s[..p + 1][..p] == s[..p];
  }

  /** A turn of the merge loop keeps the loop's invariant. */
  lemma UniqueStepKeeps<V>(dst: Header<V>, s: seq<Entry<V>>, d: Header<V>, r: Header<V>, i: nat, p: nat)
    requires UniqueLoop(dst, s, d, r, i, p) && i < Size(r.root)
    ensures p < |s|
    ensures var x := UniqueStep(d, r, i); UniqueLoop(dst, s, x.0, x.1, x.2, p + 1)
  {
    var ks := KeySet(Elems(dst.root));
    var (moved, kept) := Sift(s[..p], ks);
    var rest := s[p..];
    assert p < |s|;
    assert rest[1..] == s[p + 1..];
    var e := rest[0];
    SiftSnoc(s, ks, p);
    if e.key in ks + KeySet(moved) {
      SkipKeeps(dst, d, r, i, moved, kept, rest);
    } else {
      MoveKeeps(dst, d, r, i, moved, kept, rest);
    }
  }

  /** A source entry whose key is new to the destination moves. */
  lemma MoveKeeps<V>(dst: Header<V>, d: Header<V>, r: Header<V>, i: nat,
                     moved: seq<Entry<V>>, kept: seq<Entry<V>>, rest: seq<Entry<V>>)
    requires MergeState(dst, d, r, i, moved, kept, rest) && rest != []
    requires rest[0].key !in KeySet(Elems(dst.root)) + KeySet(moved)
    ensures i < Size(r.root) && Elems(r.root)[i] == rest[0]
    ensures InsertUnique(d, rest[0]).2
    ensures MergeState(dst, InsertUnique(d, rest[0]).0, EraseAux(r, i), i, moved + [rest[0]], kept, rest[1..])
  {
    NextAt(dst, d, r, i, moved, kept, rest);
    MovedStep(d, rest[0]);
    EraseAuxInv(r, i);
    ShiftMoved(dst, d, r, i, moved, kept, rest, InsertUnique(d, rest[0]).0, EraseAux(r, i));
  }

  lemma ShiftMoved<V>(dst: Header<V>, d: Header<V>, r: Header<V>, i: nat,
                      moved: seq<Entry<V>>, kept: seq<Entry<V>>, rest: seq<Entry<V>>,
                      d2: Header<V>, r2: Header<V>)
    requires MergeState(dst, d, r, i, moved, kept, rest) && rest != []
    requires Inv(d2) && Inv(r2) && UniqueKeys(Elems(d2.root))
    requires multiset(Elems(d2.root)) == multiset(Elems(d.root)) + multiset{rest[0]}
    requires KeySet(Elems(d2.root)) == KeySet(Elems(d.root)) + {rest[0].key}
    requires i < |Elems(r.root)| && Elems(r2.root) == Elems(r.root)[..i] + Elems(r.root)[i + 1..]
    ensures MergeState(dst, d2, r2, i, moved + [rest[0]], kept, rest[1..])
  {
    DropAtJoin(kept, rest);
    KeySetSnoc(moved, rest[0]);
    assert multiset(moved + [rest[0]]) == multiset(moved) + multiset{rest[0]};
  }

  /** Removing the first element of the second half of a concatenation. */
  lemma DropAtJoin<E>(a: seq<E>, b: seq<E>)
    requires b != []
    ensures (a + b)[..|a|] + (a + b)[|a| + 1..] == a + b[1..]
  {
    assert (a + b)[..|a|] == a;
    assert (a + b)[|a| + 1..] == b[1..];
  }

  /** A source entry whose key the destination already has stays put. */
  lemma SkipKeeps<V>(dst: Header<V>, d: Header<V>, r: Header<V>, i: nat,
                     moved: seq<Entry<V>>, kept: seq<Entry<V>>, rest: seq<Entry<V>>)
    requires MergeState(dst, d, r, i, moved, kept, rest) && rest != []
    requires rest[0].key in KeySet(Elems(dst.root)) + KeySet(moved)
    ensures i < Size(r.root) && Elems(r.root)[i] == rest[0]
    ensures !InsertUnique(d, rest[0]).2
    ensures MergeState(dst, d, r, i + 1, moved, kept + [rest[0]], rest[1..])
  {
    NextAt(dst, d, r, i, moved, kept, rest);
    Refused(d, rest[0]);
    ShiftKept(dst, d, r, i, moved, kept, rest);
  }

  /** The next source entry to visit sits at position i of the source. */
  lemma NextAt<V>(dst: Header<V>, d: Header<V>, r: Header<V>, i: nat,
                  moved: seq<Entry<V>>, kept: seq<Entry<V>>, rest: seq<Entry<V>>)
    requires MergeState(dst, d, r, i, moved, kept, rest) && rest != []
    ensures i < Size(r.root) && Elems(r.root)[i] == rest[0]
  {
  }

  lemma ShiftKept<V>(dst: Header<V>, d: Header<V>, r: Header<V>, i: nat,
                     moved: seq<Entry<V>>, kept: seq<Entry<V>>, rest: seq<Entry<V>>)
    requires MergeState(dst, d, r, i, moved, kept, rest) && rest != []
    ensures MergeState(dst, d, r, i + 1, moved, kept + [rest[0]], rest[1..])
  {
    assert kept + rest == (kept + [rest[0]]) + rest[1..];
  }

  /** Inserting an entry anywhere adds one copy of it. */
  lemma MultisetInsert<V>(t: seq<Entry<V>>, g: nat, e: Entry<V>)
    requires g <= |t|
    ensures multiset(t[..g] + [e] + t[g..]) == multiset(t) + multiset{e}
  {
    assert t == t[..g] + t[g..];
  }

  /** An entry whose key is new is accepted, added to the entries, and its key to the keys. */
  lemma MovedStep<V>(d: Header<V>, e: Entry<V>)
    requires Inv(d) && UniqueKeys(Elems(d.root)) && e.key !in KeySet(Elems(d.root))
    ensures InsertUnique(d, e).2
    ensures Inv(InsertUnique(d, e).0) && UniqueKeys(Elems(InsertUnique(d, e).0.root))
    ensures multiset(Elems(InsertUnique(d, e).0.root)) == multiset(Elems(d.root)) + multiset{e}
    ensures KeySet(Elems(InsertUnique(d, e).0.root)) == KeySet(Elems(d.root)) + {e.key}
  {
    KeyAbsent(Elems(d.root), e.key);
    InsertUniqueCorrect(d, e);
    var s := Elems(d.root);
    var g := InsertUnique(d, e).1;
    MultisetInsert(s, g, e);
    KeySetInsert(s, g, e);
  }

  /** An entry whose key is present is refused. */
  lemma Refused<V>(d: Header<V>, e: Entry<V>)
    requires Inv(d) && UniqueKeys(Elems(d.root)) && e.key in KeySet(Elems(d.root))
    ensures !InsertUnique(d, e).2
  {
    KeyAbsent(Elems(d.root), e.key);
    InsertUniqueCorrect(d, e);
  }

  /** Before the first turn nothing has moved and the whole source is left. */
  lemma UniqueLoopStart<V>(dst: Header<V>, src: Header<V>)
    requires Inv(dst) && Inv(src) && UniqueKeys(Elems(dst.root))
    ensures UniqueLoop(dst, Elems(src.root), dst, src, 0, 0)
  {
    var s := Elems(src.root);
    assert s[..0] == [] && s[0..] == s;
    assert KeySet<V>([]) == {};
  }

  /** When the walk reaches the source's end, every source entry has been visited. */
  lemma UniqueLoopDone<V>(dst: Header<V>, src: Header<V>, d: Header<V>, r: Header<V>, i: nat, p: nat)
    requires UniqueLoop(dst, Elems(src.root), d, r, i, p) && Size(r.root) <= i
    ensures Inv(d) && Inv(r) && UniqueKeys(Elems(d.root))
    ensures Elems(r.root) == Sift(Elems(src.root), KeySet(Elems(dst.root))).1
    ensures multiset(Elems(d.root)) == multiset(Elems(dst.root)) + multiset(Sift(Elems(src.root), KeySet(Elems(dst.root))).0)
    ensures KeySet(Elems(d.root)) == KeySet(Elems(dst.root)) + KeySet(Elems(src.root))
  {
    var s := Elems(src.root);
    assert p == |s|;
    assert s[..p] == s;
    SiftKeys(s, KeySet(Elems(dst.root)));
  }

  /**
   * _M_merge_unique: the destination gains exactly the source entries the
   * unique policy accepts, the rest stay in the source in order, no entry
   * is lost or duplicated, and both containers keep their invariants.
   */
  method MergeUnique<V>(dst: Header<V>, src: Header<V>) returns (d: Header<V>, r: Header<V>)
    requires Inv(dst) && Inv(src) && UniqueKeys(Elems(dst.root))
    ensures Inv(d) && Inv(r) && UniqueKeys(Elems(d.root))
    ensures Elems(r.root) == Sift(Elems(src.root), KeySet(Elems(dst.root))).1
    ensures multiset(Elems(d.root)) == multiset(Elems(dst.root)) + multiset(Sift(Elems(src.root), KeySet(Elems(dst.root))).0)
    ensures KeySet(Elems(d.root)) == KeySet(Elems(dst.root)) + KeySet(Elems(src.root))
  {
    ghost var s := Elems(src.root);
    d, r := dst, src;
    var i: nat := 0;
    ghost var p: nat := 0;
    UniqueLoopStart(dst, src);
    while i < Size(r.root)
      invariant UniqueLoop(dst, s, d, r, i, p)
      decreases |s| - p
    {
      UniqueStepKeeps(dst, s, d, r, i, p);
      var x := UniqueStep(d, r, i);
      d, r, i := x.0, x.1, x.2;
      p := p + 1;
    }
    UniqueLoopDone(dst, src, d, r, i, p);
  }

  /** What holds after the equal merge loop has moved the first p source entries. */
  ghost predicate EqualLoop<V>(dst: Header<V>, s: seq<Entry<V>>, d: Header<V>, r: Header<V>, p: nat)
  {
    p <= |s| && Inv(d) && Inv(r) && Elems(r.root) == s[p..] &&
    multiset(Elems(d.root)) == multiset(Elems(dst.root)) + multiset(s[..p])
  }

  /** A turn of the equal merge loop: the first source node always moves. */
  lemma EqualStepKeeps<V>(dst: Header<V>, s: seq<Entry<V>>, d: Header<V>, r: Header<V>, p: nat)
    requires EqualLoop(dst, s, d, r, p) && 0 < Size(r.root)
    ensures p < |s|
    ensures EqualLoop(dst, s, InsertEqual(d, Elems(r.root)[0]).0, EraseAux(r, 0), p + 1)
  {
    var e := Elems(r.root)[0];
    InsertEqualCorrect(d, e);
    MultisetInsert(Elems(d.root), InsertEqual(d, e).1, e);
    EraseAuxInv(r, 0);
    assert Elems(r.root)[..0] + Elems(r.root)[1..] == Elems(r.root)[1..];
    EqualNext(dst, s, d, r, InsertEqual(d, e).0, EraseAux(r, 0), p);
  }

  /** The equal merge state advances once the turn's facts are known. */
  lemma EqualNext<V>(dst: Header<V>, s: seq<Entry<V>>, d: Header<V>, r: Header<V>,
                     d2: Header<V>, r2: Header<V>, p: nat)
    requires EqualLoop(dst, s, d, r, p) && 0 < |Elems(r.root)|
    requires Inv(d2) && Inv(r2)
    requires multiset(Elems(d2.root)) == multiset(Elems(d.root)) + multiset{Elems(r.root)[0]}
    requires Elems(r2.root) == Elems(r.root)[1..]
    ensures p < |s| && EqualLoop(dst, s, d2, r2, p + 1)
  {
    SplitAt(s, p);
  }

  /** Moving the split point of a sequence one step on. */
  lemma SplitAt<E>(s: seq<E>, p: nat)
    requires p < |s|
    ensures s[p..][0] == s[p] && s[p..][1..] == s[p + 1..]
    ensures multiset(s[..p + 1]) == multiset(s[..p]) + multiset{s[p]}
  {
    assert s[..p + 1] == s[..p] + [s[p]];
  }

  /**
   * _M_merge_equal: the equal policy accepts every node, so the source
   * ends empty and the destination holds both containers' entries.
   */
  method MergeEqual<V>(dst: Header<V>, src: Header<V>) returns (d: Header<V>, r: Header<V>)
    requires Inv(dst) && Inv(src)
    ensures Inv(d) && Inv(r)
    ensures Elems(r.root) == [] && r.count == 0
    ensures d.count == dst.count + src.count
    ensures multiset(Elems(d.root)) == multiset(Elems(dst.root)) + multiset(Elems(src.root))
  {
    ghost var s := Elems(src.root);
    d, r := dst, src;
    ghost var p: nat := 0;
    assert s[..0] == [];
    while 0 < Size(r.root)
      invariant EqualLoop(dst, s, d, r, p)
      decreases Size(r.root)
    {
      EqualStepKeeps(dst, s, d, r, p);
      d, r := InsertEqual(d, Elems(r.root)[0]).0, EraseAux(r, 0);
      p := p + 1;
    }
    EqualLoopDone(dst, src, d, r, p);
  }

  /** When the source is empty, every source entry has moved. */
  lemma EqualLoopDone<V>(dst: Header<V>, src: Header<V>, d: Header<V>, r: Header<V>, p: nat)
    requires Inv(dst) && Inv(src) && EqualLoop(dst, Elems(src.root), d, r, p) && Size(r.root) == 0
    ensures Elems(r.root) == [] && r.count == 0
    ensures d.count == dst.count + src.count
    ensures multiset(Elems(d.root)) == multiset(Elems(dst.root)) + multiset(Elems(src.root))
  {
    var s := Elems(src.root);
    assert s[..p] == s;
    calc {
      d.count;
      |multiset(Elems(d.root))|;
      |multiset(Elems(dst.root))| + |multiset(s)|;
      Size(dst.root) + Size(src.root);
    }
  }

  /** The example of merging {3, 4} into {1, 3, 5}: 4 moves and 3 stays. */
  lemma SiftExample()
    ensures Sift([Entry(3, ()), Entry(4, ())], {1, 3, 5}) == ([Entry(4, ())], [Entry(3, ())])
  {
    var s := [Entry(3, ()), Entry(4, ())];
    var d: set<int> := {1, 3, 5};
    assert s[..2] == s;
    var m0: seq<Entry<()>>, k0: seq<Entry<()>> := [], [];
    assert s[..0] == [];
    assert Sift(s[..0], d) == (m0, k0);
    assert KeySet(m0) == {};
    SiftSnoc(s, d, 0);
    assert s[0].key in d + KeySet(m0);
    var k1 := k0 + [s[0]];
    assert Sift(s[..1], d) == (m0, k1);
    SiftSnoc(s, d, 1);
    assert s[1].key !in d + KeySet(m0);
    assert Sift(s[..2], d) == (m0 + [s[1]], k1);
    assert m0 + [s[1]] == [Entry(4, ())] && k1 == [Entry(3, ())];
  }
}
