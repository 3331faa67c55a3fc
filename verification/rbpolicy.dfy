/**
 * The insertion-position finders of rb_tree.h. A finder answers with a
 * leaf slot (x, y) -- "hang the new node under y, on the left when x is
 * non-null, y is the header or the key is less than y's" -- or with
 * (j, 0), "an equivalent key already sits at j". In a search tree each
 * leaf slot is one gap of the in-order sequence, so a slot is modelled by
 * its gap 0..Size(t): inserting at gap g puts the new entry at position g.
 */
module RbPolicy {
  import opened Wrappers
  import opened RbTree
  import opened RbLookup

  datatype InsertPos = Slot(gap: nat) | Taken(index: nat)

  /** Keys strictly increase: the invariant of the unique-key containers. */
  predicate UniqueKeys<V>(s: seq<Entry<V>>)
  {
    forall i, j :: 0 <= i < j < |s| ==> s[i].key < s[j].key
  }

  /** Gap g is a place where key k can go without breaking the order. */
  predicate FitsAt<V>(s: seq<Entry<V>>, g: int, k: int)
  {
    0 <= g <= |s| &&
    (forall j :: 0 <= j < g ==> s[j].key <= k) &&
    (forall j :: g <= j < |s| ==> k <= s[j].key)
  }

  /** Inserting at a fitting gap keeps a sequence sorted. */
  lemma SortedInsert<V>(s: seq<Entry<V>>, g: nat, e: Entry<V>)
    requires Sorted(s) && FitsAt(s, g, e.key)
    ensures Sorted(s[..g] + [e] + s[g..])
  {
    var a, b := s[..g], s[g..];
    assert forall j :: 0 <= j < |b| ==> b[j] == s[g + j];
    SortedJoin(a, e, b);
  }

  /** Inserting a key absent from a strictly increasing sequence at a fitting gap keeps it so. */
  lemma UniqueInsert<V>(s: seq<Entry<V>>, g: nat, e: Entry<V>)
    requires UniqueKeys(s) && FitsAt(s, g, e.key)
    requires forall j :: 0 <= j < |s| ==> s[j].key != e.key
    ensures UniqueKeys(s[..g] + [e] + s[g..])
  {
    var u := s[..g] + [e] + s[g..];
    forall i, j | 0 <= i < j < |u| ensures u[i].key < u[j].key {
      if j < g {
        assert u[i] == s[i] && u[j] == s[j];
      } else if j == g {
        assert u[i] == s[i];
      } else if i < g {
        assert u[i] == s[i] && u[j] == s[j - 1];
      } else if i == g {
        assert u[j] == s[j - 1];
      } else {
        assert u[i] == s[i - 1] && u[j] == s[j - 1];
      }
    }
  }

  /**
   * M_get_insert_unique_pos: the upper-bound descent, then a look at the
   * entry just before the gap (the node reached or its predecessor): if
   * its key is less than k the gap is free, otherwise that entry holds an
   * equivalent key.
   */
  function GetInsertUniquePos<V>(t: Tree<V>, k: int): (p: InsertPos)
    ensures p.Slot? ==> p.gap <= Size(t)
    ensures p.Taken? ==> p.index < Size(t) && !(Elems(t)[p.index].key < k)
  {
    GapCheck(Elems(t), k, UpperBound(t, k))
  }

  /** The check behind the gap g reached by the descent. */
  function GapCheck<V>(s: seq<Entry<V>>, k: int, g: nat): (p: InsertPos)
    requires g <= |s|
    ensures p.Slot? ==> p.gap == g
    ensures p.Taken? ==> p.index == g - 1 && 0 < g && !(s[p.index].key < k)
  {
    if g == 0 then Slot(0)
    else if s[g - 1].key < k then Slot(g)
    else Taken(g - 1)
  }

  /** On an ordered tree the unique finder offers a gap exactly when no entry has key k. */
  lemma UniquePosFree<V>(t: Tree<V>, k: int)
    requires Ordered(t)
    ensures GetInsertUniquePos(t, k).Slot? ==> forall j :: 0 <= j < Size(t) ==> Elems(t)[j].key != k
    ensures (forall j :: 0 <= j < Size(t) ==> Elems(t)[j].key != k) ==> GetInsertUniquePos(t, k).Slot?
  {
    var s := Elems(t);
    var g := UpperBound(t, k);
    UpperBoundCorrect(t, k);
    GapAfterUpperBound(s, k, g);
  }

  /**
   * On an ordered tree a gap the unique finder offers fits k, and a
   * refusal names an entry with key k.
   */
  lemma UniquePosFits<V>(t: Tree<V>, k: int)
    requires Ordered(t)
    ensures GetInsertUniquePos(t, k).Slot? ==> FitsAt(Elems(t), GetInsertUniquePos(t, k).gap, k)
    ensures GetInsertUniquePos(t, k).Taken? ==> Elems(t)[GetInsertUniquePos(t, k).index].key == k
  {
    UpperBoundCorrect(t, k);
    GapAfterUpperBound(Elems(t), k, UpperBound(t, k));
  }

  /**
   * Past the upper bound g of k in a sorted sequence: the gap is free of
   * key k exactly when no entry has key k, and then k fits there;
   * otherwise the entry before the gap has key k.
   */
  lemma GapAfterUpperBound<V>(s: seq<Entry<V>>, k: int, g: nat)
    requires Sorted(s) && IsUpperBound(s, k, g)
    ensures GapCheck(s, k, g).Slot? <==> forall j :: 0 <= j < |s| ==> s[j].key != k
    ensures GapCheck(s, k, g).Slot? ==> FitsAt(s, g, k)
    ensures GapCheck(s, k, g).Taken? ==> s[g - 1].key == k
  {
    if g > 0 && s[g - 1].key < k {
      forall j | 0 <= j < |s| ensures s[j].key != k {
        if j < g { assert s[j].key <= s[g - 1].key; }
      }
    }
  }

  /**
   * M_get_insert_hint_unique_pos: a hint (position 0..Size(t), Size(t)
   * being end()) is used when k falls strictly between the hint's
   * neighbours; a hint holding an equivalent key refuses; otherwise the
   * plain finder decides. The two leaf slots next to a hint are the same gap.
   */
  function GetInsertHintUniquePos<V>(t: Tree<V>, pos: nat, k: int): (p: InsertPos)
    requires pos <= Size(t)
    ensures p.Slot? ==> p.gap <= Size(t)
    ensures p.Taken? ==> p.index < Size(t)
  {
    HintUniqueCheck(Elems(t), pos, k, GetInsertUniquePos(t, k))
  }

  /** The comparisons around the hint; `plain` is the plain finder's answer. */
  function HintUniqueCheck<V>(s: seq<Entry<V>>, pos: nat, k: int, plain: InsertPos): (p: InsertPos)
    requires pos <= |s|
    requires plain.Slot? ==> plain.gap <= |s|
    requires plain.Taken? ==> plain.index < |s|
    ensures p.Slot? ==> p.gap <= |s|
    ensures p.Taken? ==> p.index < |s|
  {
    var n := |s|;
    if pos == n then
      if n > 0 && s[n - 1].key < k then Slot(n) else plain
    else if k < s[pos].key then
      if pos == 0 then Slot(0)
      else if s[pos - 1].key < k then Slot(pos)
      else plain
    else if s[pos].key < k then
      if pos == n - 1 then Slot(n)
      else if k < s[pos + 1].key then Slot(pos + 1)
      else plain
    else
      Taken(pos)
  }

  /**
   * In a unique-key tree the hint only saves work: the hinted finder
   * answers exactly what the plain finder answers, whatever the hint.
   */
  lemma HintUniqueAgrees<V>(t: Tree<V>, pos: nat, k: int)
    requires Ordered(t) && UniqueKeys(Elems(t)) && pos <= Size(t)
    ensures GetInsertHintUniquePos(t, pos, k) == GetInsertUniquePos(t, k)
  {
    UpperBoundCorrect(t, k);
    HintUniqueCheckAgrees(Elems(t), pos, k, UpperBound(t, k));
  }

  lemma HintUniqueCheckAgrees<V>(s: seq<Entry<V>>, pos: nat, k: int, g: nat)
    requires Sorted(s) && UniqueKeys(s) && IsUpperBound(s, k, g) && pos <= |s|
    ensures HintUniqueCheck(s, pos, k, GapCheck(s, k, g)) == GapCheck(s, k, g)
  {
    var n := |s|;
    if pos == n {
      if n > 0 && s[n - 1].key < k {
        UpperBoundAt(s, k, g, n);
      }
    } else if k < s[pos].key {
      if pos == 0 {
        UpperBoundAt(s, k, g, 0);
      } else if s[pos - 1].key < k {
        UpperBoundAt(s, k, g, pos);
      }
    } else if s[pos].key < k {
      if pos == n - 1 {
        UpperBoundAt(s, k, g, n);
      } else if k < s[pos + 1].key {
        UpperBoundAt(s, k, g, pos + 1);
      }
    } else {
      if pos + 1 < n { assert s[pos].key < s[pos + 1].key; }
      UpperBoundAt(s, k, g, pos + 1);
    }
  }

  /**
   * In a sorted sequence the upper bound of k is any position with keys
   * not above k before it and keys above k from it on.
   */
  lemma UpperBoundAt<V>(s: seq<Entry<V>>, k: int, g: int, i: int)
    requires Sorted(s) && IsUpperBound(s, k, g) && 0 <= i <= |s|
    requires i > 0 ==> s[i - 1].key <= k
    requires i < |s| ==> k < s[i].key
    ensures g == i
  {
  }

  /**
   * M_get_insert_hint_equal_pos: the hint is used when k fits between its
   * neighbours; otherwise the plain equal finder (an upper-bound descent)
   * decides, except when k is greater than both the hint and its
   * successor: then the answer is the null slot, None, and the caller
   * falls back to the lower-bound descent.
   */
  function GetInsertHintEqualPos<V>(t: Tree<V>, pos: nat, k: int): (g: Option<nat>)
    requires pos <= Size(t)
    ensures g.Some? ==> g.value <= Size(t)
  {
    HintEqualCheck(Elems(t), pos, k, UpperBound(t, k))
  }

  /** The comparisons around the hint; `upper` is the plain equal finder's gap. */
  function HintEqualCheck<V>(s: seq<Entry<V>>, pos: nat, k: int, upper: nat): (g: Option<nat>)
    requires pos <= |s| && upper <= |s|
    ensures g.Some? ==> g.value <= |s|
  {
    var n := |s|;
    if pos == n then
      if n > 0 && !(k < s[n - 1].key) then Some(n) else Some(upper)
    else if !(s[pos].key < k) then
      if pos == 0 then Some(0)
      else if !(k < s[pos - 1].key) then Some(pos)
      else Some(upper)
    else
      if pos == n - 1 then Some(n)
      else if !(s[pos + 1].key < k) then Some(pos + 1)
      else None
  }

  /**
   * On an ordered tree every gap the hinted equal finder offers fits k,
   * and a hint that fits k is taken as it is.
   */
  lemma HintEqualFits<V>(t: Tree<V>, pos: nat, k: int)
    requires Ordered(t) && pos <= Size(t)
    ensures GetInsertHintEqualPos(t, pos, k).Some? ==>
              FitsAt(Elems(t), GetInsertHintEqualPos(t, pos, k).value, k)
    ensures FitsAt(Elems(t), pos, k) ==> GetInsertHintEqualPos(t, pos, k) == Some(pos)
  {
    UpperBoundCorrect(t, k);
    HintEqualCheckFits(Elems(t), pos, k, UpperBound(t, k));
  }

  lemma HintEqualCheckFits<V>(s: seq<Entry<V>>, pos: nat, k: int, g: nat)
    requires Sorted(s) && IsUpperBound(s, k, g) && pos <= |s|
    ensures HintEqualCheck(s, pos, k, g).Some? ==> FitsAt(s, HintEqualCheck(s, pos, k, g).value, k)
    ensures FitsAt(s, pos, k) ==> HintEqualCheck(s, pos, k, g) == Some(pos)
  {
    var n := |s|;
    if pos == n {
      if n > 0 && !(k < s[n - 1].key) {
        forall j | 0 <= j < n ensures s[j].key <= k { assert s[j].key <= s[n - 1].key; }
      }
    } else if !(s[pos].key < k) {
      forall j | pos <= j < n ensures k <= s[j].key { assert s[pos].key <= s[j].key; }
      if pos > 0 && !(k < s[pos - 1].key) {
        forall j | 0 <= j < pos ensures s[j].key <= k { assert s[j].key <= s[pos - 1].key; }
      }
    } else {
      forall j | 0 <= j <= pos ensures s[j].key <= k { assert s[j].key <= s[pos].key; }
      if pos < n - 1 && !(s[pos + 1].key < k) {
        forall j | pos + 1 <= j < n ensures k <= s[j].key { assert s[pos + 1].key <= s[j].key; }
      }
    }
  }
}
