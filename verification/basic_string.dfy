/**
 * Basic_string of basic_string.h: data holds the size_ characters in
 * order and cap is capacity_. A C string argument is modelled by the
 * characters before its terminating NUL; npos is None for a position
 * that is returned and the constant Npos for a count that is passed in.
 */
module BasicString {
  import opened Wrappers
  import Kmp

  datatype Str = Str(data: seq<char>, cap: nat)

  /** size_t(-1). */
  const Npos: nat := 0xFFFF_FFFF_FFFF_FFFF

  /** The characters fit in the allocation. */
  predicate Valid(s: Str)
  {
    |s.data| <= s.cap
  }

  function Min(a: nat, b: nat): (m: nat)
    ensures m <= a && m <= b && (m == a || m == b)
  {
    if a <= b then a else b
  }

  /** d with ins placed before position pos. */
  function Spliced(d: seq<char>, pos: nat, ins: seq<char>): (r: seq<char>)
    requires pos <= |d|
    ensures |r| == |d| + |ins|
  {
    d[..pos] + ins + d[pos..]
  }

  /** d without the n characters from position off. */
  function Cut(d: seq<char>, off: nat, n: nat): (r: seq<char>)
    requires off + n <= |d|
    ensures |r| == |d| - n
  {
    d[..off] + d[off + n..]
  }

  /** Cutting out what was just spliced in gives the original back. */
  lemma CutSpliced(d: seq<char>, pos: nat, ins: seq<char>)
    requires pos <= |d|
    ensures Cut(Spliced(d, pos, ins), pos, |ins|) == d
  {
    var t := Spliced(d, pos, ins);
    assert t[..pos] == d[..pos];
    assert t[pos + |ins|..] == d[pos..];
  }

  /** Splicing back what was cut out gives the original back. */
  lemma SplicedCut(d: seq<char>, off: nat, n: nat)
    requires off + n <= |d|
    ensures Spliced(Cut(d, off, n), off, d[off..off + n]) == d
  {
    var c := Cut(d, off, n);
    assert c[..off] == d[..off];
    assert c[off..] == d[off + n..];
  }

  /** expand_capacity: double the capacity, or make it 1 when it is 0. */
  function Grown(cap: nat): (n: nat)
    ensures n > cap && n <= 2 * cap + 1
    ensures cap > 0 ==> n == 2 * cap
  {
    if cap == 0 then 1 else 2 * cap
  }

  /** reserve: only ever grows, and then to exactly the request. */
  function Reserve(s: Str, n: nat): (r: Str)
    requires Valid(s)
    ensures Valid(r) && r.data == s.data && r.cap >= n
    ensures n <= s.cap ==> r == s
    ensures n > s.cap ==> r.cap == n
  {
    if n <= s.cap then s else Str(s.data, n)
  }

  /**
   * The loop `while (need > capacity_) expand_capacity();`: the capacity
   * doubles until the request fits, so it ends below twice the request.
   */
  method GrowTo(s: Str, need: nat) returns (r: Str)
    requires Valid(s)
    ensures Valid(r) && r.data == s.data && r.cap >= need
    ensures need <= s.cap ==> r == s
    ensures need > s.cap ==> r.cap < 2 * need
  {
    r := s;
    while need > r.cap
      invariant Valid(r) && r.data == s.data && r.cap >= s.cap
      invariant r.cap != s.cap ==> r.cap < 2 * need
      invariant r.cap == s.cap || need > s.cap
      invariant r.cap == s.cap ==> r == s
      decreases need - r.cap
    {
      r := Str(r.data, Grown(r.cap));
    }
  }

  /** The characters written after the old end by append and push_back. */
  method WriteTail(d: seq<char>, src: seq<char>, count: nat) returns (r: seq<char>)
    requires count <= |src|
    ensures r == d + src[..count]
  {
    r := d;
    var i := 0;
    while i < count
      invariant i <= count && r == d + src[..i]
    {
      assert src[..i + 1] == src[..i] + [src[i]];
      r := r + [src[i]];
      i := i + 1;
    }
  }

  /**
   * append(ptr, count): reserve exactly size + count when that exceeds the
   * capacity, then copy the first count characters of ptr after the end.
   */
  method AppendPtr(s: Str, ptr: seq<char>, count: nat) returns (r: Str)
    requires Valid(s) && count <= |ptr|
    ensures Valid(r) && r.data == Spliced(s.data, |s.data|, ptr[..count])
    ensures r.cap == if |s.data| + count > s.cap then |s.data| + count else s.cap
  {
    var w := Reserve(s, |s.data| + count);
    var d := WriteTail(s.data, ptr, count);
    r := Str(d, w.cap);
  }

  /** count copies of ch. */
  function Fill(count: nat, ch: char): (r: seq<char>)
    ensures |r| == count && forall i :: 0 <= i < count ==> r[i] == ch
  {
    seq(count, _ => ch)
  }

  /**
   * append(count, ch): double the capacity until size + count fits, then
   * write count copies of ch after the end.
   */
  method AppendFill(s: Str, count: nat, ch: char) returns (r: Str)
    requires Valid(s)
    ensures Valid(r) && r.data == Spliced(s.data, |s.data|, Fill(count, ch))
    ensures |s.data| + count <= s.cap ==> r.cap == s.cap
    ensures |s.data| + count > s.cap ==> r.cap < 2 * (|s.data| + count)
  {
    var w := GrowTo(s, |s.data| + count);
    var d := WriteTail(s.data, Fill(count, ch), count);
    assert Fill(count, ch)[..count] == Fill(count, ch);
    r := Str(d, w.cap);
  }

  /** push_back: expand once when full, then write ch after the end. */
  method PushBack(s: Str, ch: char) returns (r: Str)
    requires Valid(s)
    ensures Valid(r) && r.data == Spliced(s.data, |s.data|, [ch])
    ensures |s.data| < s.cap ==> r.cap == s.cap
    ensures |s.data| == s.cap ==> r.cap == Grown(s.cap)
  {
    r := s;
    if |s.data| + 1 > s.cap {
      r := Str(s.data, Grown(s.cap));
    }
    var d := WriteTail(s.data, [ch], 1);
    r := Str(d, r.cap);
  }

  /**
   * The shift loop of both inserts: walking down from the end, move each
   * character at or after pos count places back. The count slots from
   * pos are left for the caller to fill.
   */
  method ShiftBack(d: seq<char>, pos: nat, count: nat) returns (buf: seq<char>)
    requires pos <= |d|
    ensures |buf| == |d| + count
    ensures buf[..pos] == d[..pos] && buf[pos + count..] == d[pos..]
  {
    var n := |d|;
    buf := d + Fill(count, '\0');
    var i := n;
    while i > pos
      invariant pos <= i <= n && |buf| == n + count
      invariant forall k :: 0 <= k < i ==> buf[k] == d[k]
      invariant forall k :: i + count <= k < n + count ==> buf[k] == d[k - count]
      decreases i
    {
      buf := buf[i + count - 1 := buf[i - 1]];
      i := i - 1;
    }
    assert buf[..pos] == d[..pos];
    assert buf[pos + count..] == d[pos..];
  }

  /** Write ins over the slots from pos, as the second loop of both inserts does. */
  method WriteAt(buf: seq<char>, pos: nat, ins: seq<char>) returns (r: seq<char>)
    requires pos + |ins| <= |buf|
    ensures r == buf[..pos] + ins + buf[pos + |ins|..]
  {
    r := buf;
    var i := 0;
    while i < |ins|
      invariant i <= |ins| && |r| == |buf|
      invariant r[..pos] == buf[..pos]
      invariant forall k :: 0 <= k < i ==> r[pos + k] == ins[k]
      invariant r[pos + |ins|..] == buf[pos + |ins|..]
    {
      r := r[pos + i := ins[i]];
      i := i + 1;
    }
    assert r[pos..pos + |ins|] == ins;
    assert r == r[..pos] + r[pos..pos + |ins|] + r[pos + |ins|..];
  }

  /** Shift, then fill: the insertion both inserts perform once pos is in range. */
  method InsertChars(d: seq<char>, pos: nat, ins: seq<char>) returns (r: seq<char>)
    requires pos <= |d|
    ensures r == Spliced(d, pos, ins)
  {
    var buf := ShiftBack(d, pos, |ins|);
    r := WriteAt(buf, pos, ins);
    assert r[..pos] == d[..pos] && r[pos + |ins|..] == d[pos..];
  }

  /**
   * insert(pos, str, count): nothing when pos is past the end; otherwise
   * reserve size + count and splice the first count characters of str in
   * before pos.
   */
  method InsertPtr(s: Str, pos: nat, ptr: seq<char>, count: nat) returns (r: Str)
    requires Valid(s) && count <= |ptr|
    ensures Valid(r)
    ensures pos > |s.data| ==> r == s
    ensures pos <= |s.data| ==> r.data == Spliced(s.data, pos, ptr[..count])
    ensures pos <= |s.data| ==> r.cap == if |s.data| + count > s.cap then |s.data| + count else s.cap
  {
    if pos > |s.data| {
      return s;
    }
    var w := Reserve(s, |s.data| + count);
    var d := InsertChars(s.data, pos, ptr[..count]);
    r := Str(d, w.cap);
  }

  /**
   * insert(pos, count, ch): nothing when pos is past the end; otherwise
   * double the capacity until size + count fits and splice count copies
   * of ch in before pos.
   */
  method InsertFill(s: Str, pos: nat, count: nat, ch: char) returns (r: Str)
    requires Valid(s)
    ensures Valid(r)
    ensures pos > |s.data| ==> r == s
    ensures pos <= |s.data| ==> r.data == Spliced(s.data, pos, Fill(count, ch))
    ensures pos <= |s.data| && |s.data| + count <= s.cap ==> r.cap == s.cap
  {
    if pos > |s.data| {
      return s;
    }
    var w := GrowTo(s, |s.data| + count);
    var d := InsertChars(s.data, pos, Fill(count, ch));
    r := Str(d, w.cap);
  }

  /**
   * How many characters erase(offset, count) removes: all the rest for
   * npos, or when offset + count runs past the end; count otherwise.
   */
  function EraseCount(size: nat, offset: nat, count: nat): (n: nat)
    requires offset < size
    ensures offset + n <= size
    ensures count == Npos ==> offset + n == size
    ensures count != Npos ==> n == Min(count, size - offset)
  {
    if count == Npos || count + offset > size then size - offset else count
  }

  /**
   * erase(offset, count): out_of_range when offset is not below size;
   * otherwise move the tail down over the erased run. Capacity stays.
   */
  method Erase(s: Str, offset: nat, count: nat) returns (r: Result<Str, Error>)
    requires Valid(s)
    ensures r.Failure? <==> offset >= |s.data|
    ensures r.Success? ==> Valid(r.value) && r.value.cap == s.cap
    ensures r.Success? ==> r.value.data == Cut(s.data, offset, EraseCount(|s.data|, offset, count))
  {
    if offset >= |s.data| {
      return Failure(OutOfRange);
    }
    var n := |s.data|;
    var c := EraseCount(n, offset, count);
    var buf := s.data;
    var i := 0;
    while i < n - offset - c
      invariant i <= n - offset - c && |buf| == n
      invariant buf[..offset] == s.data[..offset]
      invariant forall k :: offset <= k < offset + i ==> buf[k] == s.data[k + c]
      invariant forall k :: offset + i + c <= k < n ==> buf[k] == s.data[k]
    {
      buf := buf[i + offset := buf[i + offset + c]];
      i := i + 1;
    }
    assert buf[..n - c] == Cut(s.data, offset, c);
    return Success(Str(buf[..n - c], s.cap));
  }

  /** Erasing what was appended restores the characters. */
  lemma EraseAppended(d: seq<char>, ins: seq<char>)
    requires |ins| > 0
    ensures Cut(Spliced(d, |d|, ins), |d|, EraseCount(|d| + |ins|, |d|, Npos)) == d
  {
    CutSpliced(d, |d|, ins);
  }

  /** at: the character at index, or out_of_range exactly when index is not below size. */
  function At(s: Str, index: nat): Result<char, Error>
  {
    CheckedAt(s.data, index)
  }

  /**
   * at after an insertion at pos: the characters before pos stay put, the
   * inserted ones are found from pos on, and the old tail is found |ins|
   * further along; past the new end at fails.
   */
  lemma AtSpliced(s: Str, pos: nat, ins: seq<char>, cap: nat)
    requires pos <= |s.data|
    ensures var t := Str(Spliced(s.data, pos, ins), cap);
      (forall i :: 0 <= i < pos ==> At(t, i) == At(s, i)) &&
      (forall k :: 0 <= k < |ins| ==> At(t, pos + k) == Success(ins[k])) &&
      (forall i :: pos <= i ==> At(t, i + |ins|) == At(s, i))
  {
  }

  // ---------------------------------------------------------------------
  // compare

  /** The reference three-way lexicographic order: -1, 0 or 1. */
  function LexCmp(x: seq<char>, y: seq<char>): int
  {
    if |x| == 0 && |y| == 0 then 0
    else if |x| == 0 then -1
    else if |y| == 0 then 1
    else if x[0] < y[0] then -1
    else if x[0] > y[0] then 1
    else LexCmp(x[1..], y[1..])
  }

  /** The length of the range compare reads from pos with at most n characters. */
  function RangeLen(a: seq<char>, pos: nat, n: nat): (m: nat)
    ensures m <= n && pos + m <= |a| + (if pos > |a| then pos - |a| else 0)
    ensures pos <= |a| ==> pos + m == |a| || m == n
  {
    if pos > |a| then 0 else Min(n, |a| - pos)
  }

  /** The substring of at most n characters starting at pos (empty when pos is past the end). */
  function Substr(a: seq<char>, pos: nat, n: nat): (r: seq<char>)
    ensures |r| == RangeLen(a, pos, n)
    ensures forall k :: 0 <= k < |r| ==> pos + k < |a| && r[k] == a[pos + k]
  {
    if pos > |a| then [] else a[pos..pos + Min(n, |a| - pos)]
  }

  /**
   * compare's loop from step i: the first position where the two ranges
   * differ decides, giving 1 or -1; None when the loop runs out.
   */
  function Scan(a: seq<char>, p1: nat, n1: nat, b: seq<char>, p2: nat, n2: nat, i: nat): (r: Option<int>)
    ensures r.Some? ==> r.value == 1 || r.value == -1
    decreases |a| - i
  {
    if i + p1 < |a| && i + p2 < |b| && i < n1 && i < n2 then
      if a[i + p1] > b[i + p2] then Some(1)
      else if a[i + p1] < b[i + p2] then Some(-1)
      else Scan(a, p1, n1, b, p2, n2, i + 1)
    else None
  }

  /** Once the loop runs out, compare the two lengths: the longer is greater. */
  function ByLength(o: Option<int>, len1: nat, len2: nat): int
  {
    match o
    case Some(r) => r
    case None => if len2 > len1 then -1 else if len2 < len1 then 1 else 0
  }

  /**
   * compare(pos1, n1, str, pos2, n2) as written: after the loop, the
   * lengths compared are n1 clamped to size and n2 clamped to str.size(),
   * not to what is left after pos1 and pos2.
   */
  function CompareAsWritten(a: seq<char>, p1: nat, n1: nat, b: seq<char>, p2: nat, n2: nat): (r: int)
    ensures -1 <= r <= 1
  {
    ByLength(Scan(a, p1, n1, b, p2, n2, 0), Min(n1, |a|), Min(n2, |b|))
  }

  /**
   * compare(pos1, n1, str, pos2, n2) with the lengths clamped to what is
   * left after each position: the lexicographic order of the two
   * substrings.
   */
  function Compare(a: seq<char>, p1: nat, n1: nat, b: seq<char>, p2: nat, n2: nat): (r: int)
    ensures r == LexCmp(Substr(a, p1, n1), Substr(b, p2, n2))
  {
    ScanLex(a, p1, n1, b, p2, n2, 0);
    ByLength(Scan(a, p1, n1, b, p2, n2, 0), RangeLen(a, p1, n1), RangeLen(b, p2, n2))
  }

  /** From step i on, the loop followed by the length test is the lexicographic order of what is left. */
  lemma {:induction false} ScanLex(a: seq<char>, p1: nat, n1: nat, b: seq<char>, p2: nat, n2: nat, i: nat)
    requires i <= |Substr(a, p1, n1)| && i <= |Substr(b, p2, n2)|
    ensures ByLength(Scan(a, p1, n1, b, p2, n2, i), RangeLen(a, p1, n1), RangeLen(b, p2, n2))
      == LexCmp(Substr(a, p1, n1)[i..], Substr(b, p2, n2)[i..])
    decreases |a| - i
  {
    var x, y := Substr(a, p1, n1), Substr(b, p2, n2);
    assert |x| == RangeLen(a, p1, n1) && |y| == RangeLen(b, p2, n2);
    if i < |x| && i < |y| {
      assert x[i] == a[i + p1] && y[i] == b[i + p2];
      assert x[i..][0] == x[i] && y[i..][0] == y[i];
      if a[i + p1] == b[i + p2] {
        ScanLex(a, p1, n1, b, p2, n2, i + 1);
        assert x[i..][1..] == x[i + 1..] && y[i..][1..] == y[i + 1..];
      }
    } else {
      assert !(i + p1 < |a| && i + p2 < |b| && i < n1 && i < n2);
    }
  }

  /** LexCmp is three-way, zero exactly on equal strings, and antisymmetric. */
  lemma {:induction false} LexCmpOrder(x: seq<char>, y: seq<char>)
    ensures -1 <= LexCmp(x, y) <= 1
    ensures LexCmp(x, y) == 0 <==> x == y
    ensures LexCmp(y, x) == -LexCmp(x, y)
    decreases |x|
  {
    if |x| > 0 && |y| > 0 && x[0] == y[0] {
      LexCmpOrder(x[1..], y[1..]);
      if x[1..] == y[1..] {
        assert x == [x[0]] + x[1..] && y == [y[0]] + y[1..];
      }
    }
  }

  /** A proper prefix compares less. */
  lemma {:induction false} LexCmpPrefix(x: seq<char>, rest: seq<char>)
    requires |rest| > 0
    ensures LexCmp(x, x + rest) == -1
    decreases |x|
  {
    if |x| > 0 {
      assert (x + rest)[1..] == x[1..] + rest;
      LexCmpPrefix(x[1..], rest);
    }
  }

  /** compare(str): comparing whole strings from position 0 is already right as written. */
  lemma CompareWhole(a: seq<char>, b: seq<char>)
    ensures CompareAsWritten(a, 0, |a|, b, 0, |b|) == LexCmp(a, b)
    ensures CompareAsWritten(a, 0, |a|, b, 0, |b|) == Compare(a, 0, |a|, b, 0, |b|)
  {
    var o := Scan(a, 0, |a|, b, 0, |b|, 0);
    assert RangeLen(a, 0, |a|) == |a| == Min(|a|, |a|);
    assert RangeLen(b, 0, |b|) == |b| == Min(|b|, |b|);
    assert CompareAsWritten(a, 0, |a|, b, 0, |b|) == ByLength(o, |a|, |b|);
    assert Compare(a, 0, |a|, b, 0, |b|) == ByLength(o, |a|, |b|);
    assert a[0..|a|] == a && b[0..|b|] == b;
    assert Substr(a, 0, |a|) == a && Substr(b, 0, |b|) == b;
  }

  /**
   * "abc".compare(1, 5, "bc") compares "bc" with "bc" but answers 1: the
   * first length is taken as min(5, 3) instead of min(5, 3 - 1).
   */
  lemma CompareAsWrittenMisorders()
    ensures Substr("abc", 1, 5) == Substr("bc", 0, 2)
    ensures CompareAsWritten("abc", 1, 5, "bc", 0, 2) == 1
    ensures Compare("abc", 1, 5, "bc", 0, 2) == 0
  {
    assert Substr("abc", 1, 5) == "bc";
    assert Scan("abc", 1, 5, "bc", 0, 2, 2) == None;
    LexCmpOrder("bc", "bc");
  }

  // ---------------------------------------------------------------------
  // character searches

  /** The test a search applies to a character: membership in cs when want, absence otherwise. */
  predicate Hit(c: char, cs: seq<char>, want: bool)
  {
    (c in cs) == want
  }

  /** The first index in [off, |d|) whose character passes Hit, or None. */
  method ScanForward(d: seq<char>, off: nat, cs: seq<char>, want: bool) returns (r: Option<nat>)
    ensures r.Some? ==> off <= r.value < |d| && Hit(d[r.value], cs, want)
    ensures r.Some? ==> forall k :: off <= k < r.value ==> !Hit(d[k], cs, want)
    ensures r.None? ==> forall k :: off <= k < |d| ==> !Hit(d[k], cs, want)
  {
    var i := off;
    while i < |d|
      invariant off <= i
      invariant forall k :: off <= k < i && k < |d| ==> !Hit(d[k], cs, want)
    {
      if Hit(d[i], cs, want) {
        return Some(i);
      }
      i := i + 1;
    }
    return None;
  }

  /** The last index in [0, from] whose character passes Hit, or None. */
  method ScanBackward(d: seq<char>, from: nat, cs: seq<char>, want: bool) returns (r: Option<nat>)
    requires from < |d|
    ensures r.Some? ==> r.value <= from && Hit(d[r.value], cs, want)
    ensures r.Some? ==> forall k :: r.value < k <= from ==> !Hit(d[k], cs, want)
    ensures r.None? ==> forall k :: 0 <= k <= from ==> !Hit(d[k], cs, want)
  {
    var i: int := from;
    while i >= 0
      invariant -1 <= i <= from
      invariant forall k :: i < k <= from ==> !Hit(d[k], cs, want)
    {
      if Hit(d[i], cs, want) {
        return Some(i);
      }
      i := i - 1;
    }
    return None;
  }

  /** find(ch, offset), and find_first_of(ch, offset) which is the same loop. */
  method FindChar(s: Str, ch: char, off: nat) returns (r: Option<nat>)
    ensures r.Some? ==> off <= r.value < |s.data| && s.data[r.value] == ch
    ensures r.Some? ==> forall k :: off <= k < r.value ==> s.data[k] != ch
    ensures r.None? ==> forall k :: off <= k < |s.data| ==> s.data[k] != ch
  {
    r := ScanForward(s.data, off, [ch], true);
  }

  /** find_first_not_of(ch, offset): the first index from offset holding another character. */
  method FindFirstNotOfChar(s: Str, ch: char, off: nat) returns (r: Option<nat>)
    ensures r.Some? ==> off <= r.value < |s.data| && s.data[r.value] != ch
    ensures r.Some? ==> forall k :: off <= k < r.value ==> s.data[k] == ch
    ensures r.None? ==> forall k :: off <= k < |s.data| ==> s.data[k] == ch
  {
    r := ScanForward(s.data, off, [ch], false);
  }

  /**
   * The character set of find_first_of, find_first_not_of and
   * find_last_of_base: the first count characters of ptr, or all of them
   * when it is shorter.
   */
  function CharSet(ptr: seq<char>, count: nat): (cs: seq<char>)
    ensures |cs| == Min(count, |ptr|) && cs == ptr[..|cs|]
  {
    ptr[..Min(count, |ptr|)]
  }

  /**
   * find_first_of(ptr, offset, count): npos when offset is not below
   * size; otherwise the first index from offset whose character is in
   * the set.
   */
  method FindFirstOf(s: Str, ptr: seq<char>, off: nat, count: nat) returns (r: Option<nat>)
    ensures r.Some? ==> off <= r.value < |s.data| && s.data[r.value] in CharSet(ptr, count)
    ensures r.Some? ==> forall k :: off <= k < r.value ==> s.data[k] !in CharSet(ptr, count)
    ensures r.None? ==> forall k :: off <= k < |s.data| ==> s.data[k] !in CharSet(ptr, count)
  {
    if off >= |s.data| {
      return None;
    }
    r := ScanForward(s.data, off, CharSet(ptr, count), true);
  }

  /**
   * find_first_not_of(ptr, offset, count): npos when offset is not below
   * size; otherwise the first index from offset whose character is not
   * in the set.
   */
  method FindFirstNotOf(s: Str, ptr: seq<char>, off: nat, count: nat) returns (r: Option<nat>)
    ensures r.Some? ==> off <= r.value < |s.data| && s.data[r.value] !in CharSet(ptr, count)
    ensures r.Some? ==> forall k :: off <= k < r.value ==> s.data[k] in CharSet(ptr, count)
    ensures r.None? ==> forall k :: off <= k < |s.data| ==> s.data[k] in CharSet(ptr, count)
  {
    if off >= |s.data| {
      return None;
    }
    r := ScanForward(s.data, off, CharSet(ptr, count), false);
  }

  /**
   * find_last_of_base(ptr, offset, count, not_or_in): npos on an empty
   * string; otherwise the last index at or below min(offset, size - 1)
   * whose character is outside the set (not_or_in) or inside it.
   */
  method FindLastOfBase(s: Str, ptr: seq<char>, off: nat, count: nat, notIn: bool) returns (r: Option<nat>)
    ensures |s.data| == 0 ==> r.None?
    ensures r.Some? ==> r.value <= off && r.value < |s.data|
    ensures r.Some? ==> (s.data[r.value] in CharSet(ptr, count)) != notIn
    ensures r.Some? ==> forall k :: r.value < k <= off && k < |s.data| ==> (s.data[k] in CharSet(ptr, count)) == notIn
    ensures r.None? ==> forall k :: 0 <= k <= off && k < |s.data| ==> (s.data[k] in CharSet(ptr, count)) == notIn
  {
    if |s.data| == 0 {
      return None;
    }
    var from := if off >= |s.data| then |s.data| - 1 else off;
    r := ScanBackward(s.data, from, CharSet(ptr, count), !notIn);
  }

  // ---------------------------------------------------------------------
  // prefixes

  /** starts_with(c): false on an empty string, otherwise whether c is first. */
  function StartsWithChar(s: Str, c: char): (b: bool)
    ensures b <==> Kmp.MatchAt(s.data, [c], 0)
  {
    assert [c][0] == c;
    if |s.data| == 0 then false else s.data[0] == c
  }

  /**
   * starts_with(x): false when x is longer than the string, otherwise a
   * character-by-character comparison of the prefix.
   */
  method StartsWith(s: Str, x: seq<char>) returns (b: bool)
    ensures b <==> Kmp.MatchAt(s.data, x, 0)
    ensures b <==> |x| <= |s.data| && s.data[..|x|] == x
  {
    if |s.data| < |x| {
      return false;
    }
    var i := 0;
    while i < |x|
      invariant i <= |x| && forall k :: 0 <= k < i ==> s.data[k] == x[k]
    {
      if s.data[i] != x[i] {
        return false;
      }
      i := i + 1;
    }
    return true;
  }

  /**
   * find(str, offset, count) hands the first count characters of str to
   * the KMP search; the first occurrence at or after offset is found.
   */
  method Find(s: Str, ptr: seq<char>, off: nat, count: nat) returns (r: Option<nat>)
    requires count <= |ptr|
    ensures r.Some? ==> off <= r.value && r.value + count <= |s.data| && s.data[r.value..r.value + count] == ptr[..count]
    ensures r.Some? ==> forall k :: off <= k < r.value ==> !Kmp.MatchAt(s.data, ptr[..count], k)
    ensures r.None? ==> forall k :: off <= k ==> !Kmp.MatchAt(s.data, ptr[..count], k)
  {
    r := Kmp.Find(s.data, ptr[..count], off);
    if r.Some? {
      assert Kmp.MatchAt(s.data, ptr[..count], r.value);
      assert s.data[r.value..r.value + count] == ptr[..count];
    }
  }

  /** A string starts with x exactly when the search finds x at position 0. */
  lemma StartsWithIsMatchAtZero(s: Str, x: seq<char>)
    ensures Kmp.MatchAt(s.data, x, 0) <==> |x| <= |s.data| && s.data[..|x|] == x
  {
    if |x| <= |s.data| && s.data[..|x|] == x {
      assert forall t :: 0 <= t < |x| ==> s.data[t] == s.data[..|x|][t];
    }
    if Kmp.MatchAt(s.data, x, 0) {
      assert s.data[..|x|] == x;
    }
  }
}
