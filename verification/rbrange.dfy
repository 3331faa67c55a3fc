/**
 * M_insert_range_unique and M_insert_range_equal of rb_tree.h: insert the
 * values of an input range one by one, each with end() as the hint (or
 * by emplacing, which decides the same way).
 */
module RbRange {
  import opened RbTree
  import opened RbPolicy
  import opened RbContainer
  import opened RbMerge

  /** One more value of the range. */
  lemma TakeSnoc<T>(xs: seq<T>, k: nat)
    requires k < |xs|
    ensures xs[..k + 1] == xs[..k] + [xs[k]]
  {
  }

  /**
   * After the first k values of the range have been offered: the entries
   * added so far are exactly those a unique merge of xs[..k] would move
   * (the first value offered for each key the container lacked).
   */
  ghost predicate RangeUniqueState<V>(m: Header<V>, r: Header<V>, xs: seq<Entry<V>>, k: nat)
  {
    k <= |xs| && Inv(r) && UniqueKeys(Elems(r.root)) &&
    KeySet(Elems(r.root)) == KeySet(Elems(m.root)) + KeySet(xs[..k]) &&
    multiset(Elems(m.root)) <= multiset(Elems(r.root)) &&
    var moved := Sift(xs[..k], KeySet(Elems(m.root))).0;
    KeySet(Elems(r.root)) == KeySet(Elems(m.root)) + KeySet(moved) &&
    multiset(Elems(r.root)) == multiset(Elems(m.root)) + multiset(moved)
  }

  lemma RangeUniqueKeeps<V>(m: Header<V>, r: Header<V>, xs: seq<Entry<V>>, k: nat)
    requires RangeUniqueState(m, r, xs, k) && k < |xs|
    ensures RangeUniqueState(m, InsertHintUnique(r, Size(r.root), xs[k]).0, xs, k + 1)
  {
    var r2 := InsertHintUnique(r, Size(r.root), xs[k]).0;
    TakeSnoc(xs, k);
    KeySetSnoc(xs[..k], xs[k]);
    UniqueEndStep(r, xs[k]);
    SiftedStep(Elems(m.root), Elems(r.root), Elems(r2.root), xs, k);
    RangeUniqueNext(m, r, r2, xs, k);
  }

  /**
   * The container's entries track the reference Sift of the values offered
   * so far: offering one more either changes nothing (its key is present)
   * or adds exactly it, and Sift decides the same way.
   */
  lemma SiftedStep<V>(base: seq<Entry<V>>, a: seq<Entry<V>>, b: seq<Entry<V>>, xs: seq<Entry<V>>, k: nat)
    requires k < |xs|
    requires var moved := Sift(xs[..k], KeySet(base)).0;
      KeySet(a) == KeySet(base) + KeySet(moved) && multiset(a) == multiset(base) + multiset(moved)
    requires xs[k].key in KeySet(a) ==> b == a
    requires xs[k].key !in KeySet(a) ==>
      multiset(b) == multiset(a) + multiset{xs[k]} && KeySet(b) == KeySet(a) + {xs[k].key}
    ensures var moved := Sift(xs[..k + 1], KeySet(base)).0;
      KeySet(b) == KeySet(base) + KeySet(moved) && multiset(b) == multiset(base) + multiset(moved)
  {
    var moved := Sift(xs[..k], KeySet(base)).0;
    SiftSnoc(xs, KeySet(base), k);
    if xs[k].key !in KeySet(a) {
      KeySetSnoc(moved, xs[k]);
      assert multiset(moved + [xs[k]]) == multiset(moved) + multiset{xs[k]};
    }
  }

  /** The state advances by one value once the step's facts are known. */
  lemma RangeUniqueNext<V>(m: Header<V>, r: Header<V>, r2: Header<V>, xs: seq<Entry<V>>, k: nat)
    requires RangeUniqueState(m, r, xs, k) && k < |xs|
    requires Inv(r2) && UniqueKeys(Elems(r2.root))
    requires KeySet(Elems(r2.root)) == KeySet(Elems(r.root)) + {xs[k].key}
    requires multiset(Elems(r.root)) <= multiset(Elems(r2.root))
    requires KeySet(xs[..k + 1]) == KeySet(xs[..k]) + {xs[k].key}
    requires var moved := Sift(xs[..k + 1], KeySet(Elems(m.root))).0;
      KeySet(Elems(r2.root)) == KeySet(Elems(m.root)) + KeySet(moved) &&
      multiset(Elems(r2.root)) == multiset(Elems(m.root)) + multiset(moved)
    ensures RangeUniqueState(m, r2, xs, k + 1)
  {
  }

  /**
   * Unique range insertion: the container ends with its own keys plus the
   * range's keys, still with unique keys, and it only ever gains entries;
   * the entries it gains are exactly those the reference Sift moves, the
   * first value in the range for each key the container lacked.
   */
  method InsertRangeUnique<V>(m: Header<V>, xs: seq<Entry<V>>) returns (r: Header<V>)
    requires Inv(m) && UniqueKeys(Elems(m.root))
    ensures Inv(r) && UniqueKeys(Elems(r.root))
    ensures KeySet(Elems(r.root)) == KeySet(Elems(m.root)) + KeySet(xs)
    ensures multiset(Elems(m.root)) <= multiset(Elems(r.root))
    ensures multiset(Elems(r.root)) == multiset(Elems(m.root)) + multiset(Sift(xs, KeySet(Elems(m.root))).0)
  {
    r := m;
    var k: nat := 0;
    assert xs[..0] == [];
    assert KeySet<V>([]) == {};
    assert Sift<V>([], KeySet(Elems(m.root))).0 == [];
    while k < |xs|
      invariant RangeUniqueState(m, r, xs, k)
    {
      RangeUniqueKeeps(m, r, xs, k);
      r := InsertHintUnique(r, Size(r.root), xs[k]).0;
      k := k + 1;
    }
    assert xs[..k] == xs;
  }

  /**
   * One unique insertion hinted at end() adds the key and loses no entry:
   * a key already present changes nothing, a fresh one adds exactly e.
   */
  lemma UniqueEndStep<V>(m: Header<V>, e: Entry<V>)
    requires Inv(m) && UniqueKeys(Elems(m.root))
    ensures var r := InsertHintUnique(m, Size(m.root), e).0;
      Inv(r) && UniqueKeys(Elems(r.root)) &&
      KeySet(Elems(r.root)) == KeySet(Elems(m.root)) + {e.key} &&
      multiset(Elems(m.root)) <= multiset(Elems(r.root)) &&
      (e.key in KeySet(Elems(m.root)) ==> r == m) &&
      (e.key !in KeySet(Elems(m.root)) ==> multiset(Elems(r.root)) == multiset(Elems(m.root)) + multiset{e})
  {
    InsertHintUniqueAgrees(m, Size(m.root), e);
    if e.key in KeySet(Elems(m.root)) {
      Refused(m, e);
      InsertUniqueCorrect(m, e);
    } else {
      MovedStep(m, e);
    }
  }

  /** After the first k values of the range have gone in. */
  ghost predicate RangeEqualState<V>(m: Header<V>, r: Header<V>, xs: seq<Entry<V>>, k: nat)
  {
    k <= |xs| && Inv(r) && r.count == m.count + k &&
    multiset(Elems(r.root)) == multiset(Elems(m.root)) + multiset(xs[..k])
  }

  lemma RangeEqualKeeps<V>(m: Header<V>, r: Header<V>, xs: seq<Entry<V>>, k: nat)
    requires RangeEqualState(m, r, xs, k) && k < |xs|
    ensures RangeEqualState(m, InsertHintEqual(r, Size(r.root), xs[k]).0, xs, k + 1)
  {
    var e := xs[k];
    TakeSnoc(xs, k);
    InsertHintEqualCorrect(r, Size(r.root), e);
    var res := InsertHintEqual(r, Size(r.root), e);
    MultisetInsert(Elems(r.root), res.1, e);
  }

  /**
   * Equal range insertion: every value goes in, so the container ends
   * with its own entries plus all of the range's.
   */
  method InsertRangeEqual<V>(m: Header<V>, xs: seq<Entry<V>>) returns (r: Header<V>)
    requires Inv(m)
    ensures Inv(r)
    ensures multiset(Elems(r.root)) == multiset(Elems(m.root)) + multiset(xs)
    ensures r.count == m.count + |xs|
  {
    r := m;
    var k: nat := 0;
    assert xs[..0] == [];
    while k < |xs|
      invariant RangeEqualState(m, r, xs, k)
    {
      RangeEqualKeeps(m, r, xs, k);
      r := InsertHintEqual(r, Size(r.root), xs[k]).0;
      k := k + 1;
    }
    assert xs[..k] == xs;
  }
}
