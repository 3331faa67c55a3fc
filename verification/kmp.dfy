/**
 * The Knuth-Morris-Pratt search behind Basic_string::find (find_impl and
 * compute_lps of basic_string.h): the failure table holds, for each
 * prefix of the pattern, the length of its longest proper border (a
 * proper prefix that is also a suffix); the search falls back along that
 * table on a mismatch instead of re-reading the text.
 */
module Kmp {
  import opened Wrappers

  /** p occurs in s starting at k. */
  predicate MatchAt(s: seq<char>, p: seq<char>, k: nat)
  {
    k + |p| <= |s| && forall t :: 0 <= t < |p| ==> s[k + t] == p[t]
  }

  /** The first b characters of p[..n] are also its last b, and b < n. */
  predicate Border(p: seq<char>, n: nat, b: nat)
  {
    b < n <= |p| && forall t :: 0 <= t < b ==> p[t] == p[n - b + t]
  }

  /** b is the longest proper border of p[..n]. */
  predicate Longest(p: seq<char>, n: nat, b: nat)
  {
    Border(p, n, b) && forall c: nat :: b < c < n ==> !Border(p, n, c)
  }

  /** Entry i of lps is the longest proper border of p[..i + 1], for every i below upto. */
  predicate LpsUpTo(p: seq<char>, lps: seq<nat>, upto: nat)
  {
    upto <= |lps| == |p| && forall i :: 0 <= i < upto ==> Longest(p, i + 1, lps[i])
  }

  /** A border followed by a matching character grows by one. */
  lemma BorderExtend(p: seq<char>, n: nat, b: nat)
    requires Border(p, n, b) && n < |p| && p[b] == p[n]
    ensures Border(p, n + 1, b + 1)
  {
  }

  /** A non-empty border of p[..n + 1] is a border of p[..n] followed by p[n]. */
  lemma BorderShrink(p: seq<char>, n: nat, b: nat)
    requires n < |p| && b >= 1
    ensures Border(p, n + 1, b) ==> Border(p, n, b - 1) && p[b - 1] == p[n]
  {
    if Border(p, n + 1, b) {
      forall t | 0 <= t < b - 1 ensures p[t] == p[n - (b - 1) + t] {
        assert p[t] == p[n + 1 - b + t];
      }
      assert p[b - 1] == p[n + 1 - b + (b - 1)];
    }
  }

  /** A border of a border is a border. */
  lemma BorderTrans(p: seq<char>, n: nat, b: nat, c: nat)
    requires Border(p, n, b) && Border(p, b, c)
    ensures Border(p, n, c)
  {
    forall t | 0 <= t < c ensures p[t] == p[n - c + t] {
      assert p[t] == p[b - c + t];
      assert p[b - c + t] == p[n - b + (b - c + t)];
    }
  }

  /** Of two borders of p[..n], the shorter is a border of the longer. */
  lemma BorderInner(p: seq<char>, n: nat, b: nat, c: nat)
    requires Border(p, n, b) && c < b
    ensures Border(p, n, c) ==> Border(p, b, c)
  {
    if Border(p, n, c) {
      forall t | 0 <= t < c ensures p[t] == p[b - c + t] {
        assert p[t] == p[n - c + t];
        assert p[b - c + t] == p[n - b + (b - c + t)];
      }
    }
  }

  /**
   * compute_lps's loop state: lps is right below i, prev is a border of
   * p[..i], and no longer border of p[..i] is followed by p[i].
   */
  predicate LpsLoop(p: seq<char>, lps: seq<nat>, i: nat, prev: nat)
  {
    1 <= i <= |p| && LpsUpTo(p, lps, i) && Border(p, i, prev) &&
    (i < |p| ==> forall b :: prev < b < i && Border(p, i, b) ==> p[b] != p[i])
  }

  /** Once entry n - 1 is known to be b, the loop may go on from (n, b). */
  lemma LpsNext(p: seq<char>, lps: seq<nat>, n: nat, b: nat)
    requires 1 <= n <= |p| && LpsUpTo(p, lps, n) && Longest(p, n, b)
    ensures LpsLoop(p, lps, n, b)
  {
  }

  /** Setting entry i to the longest border of p[..i + 1] extends the table by one. */
  lemma LpsSet(p: seq<char>, lps: seq<nat>, i: nat, b: nat)
    requires i < |p| && LpsUpTo(p, lps, i) && Longest(p, i + 1, b)
    ensures LpsUpTo(p, lps[i := b], i + 1)
  {
    var lps' := lps[i := b];
    forall k | 0 <= k < i + 1 ensures Longest(p, k + 1, lps'[k]) {
      if k < i {
        assert lps'[k] == lps[k];
      }
    }
  }

  lemma LpsStart(p: seq<char>, lps: seq<nat>)
    requires |p| >= 1 && |lps| == |p| && lps[0] == 0
    ensures LpsLoop(p, lps, 1, 0)
  {
  }

  /** p[i] extends prev: the entry is prev + 1, and nothing longer is a border. */
  lemma LpsMatch(p: seq<char>, lps: seq<nat>, i: nat, prev: nat)
    requires LpsLoop(p, lps, i, prev) && i < |p| && p[i] == p[prev]
    ensures LpsLoop(p, lps[i := prev + 1], i + 1, prev + 1)
  {
    BorderExtend(p, i, prev);
    var n := i + 1;
    forall b: nat | prev + 1 < b < n ensures !Border(p, n, b) {
      BorderShrink(p, i, b);
    }
    assert Longest(p, n, prev + 1);
    LpsSet(p, lps, i, prev + 1);
    LpsNext(p, lps[i := prev + 1], n, prev + 1);
  }

  /** p[i] does not extend prev > 0: fall back to the longest border of p[..prev]. */
  lemma LpsFallback(p: seq<char>, lps: seq<nat>, i: nat, prev: nat)
    requires LpsLoop(p, lps, i, prev) && i < |p| && p[i] != p[prev] && prev != 0
    ensures lps[prev - 1] < prev && LpsLoop(p, lps, i, lps[prev - 1])
  {
    var q := lps[prev - 1];
    BorderTrans(p, i, prev, q);
    forall b | q < b < i && Border(p, i, b) ensures p[b] != p[i] {
      if b < prev {
        BorderInner(p, i, prev, b);
      }
    }
  }

  /** p[i] matches no border at all: the entry is 0. */
  lemma LpsZero(p: seq<char>, lps: seq<nat>, i: nat)
    requires LpsLoop(p, lps, i, 0) && i < |p| && p[i] != p[0]
    ensures LpsLoop(p, lps[i := 0], i + 1, 0)
  {
    var n := i + 1;
    forall b: nat | 0 < b < n ensures !Border(p, n, b) {
      BorderShrink(p, i, b);
    }
    assert Longest(p, n, 0);
    LpsSet(p, lps, i, 0);
    LpsNext(p, lps[i := 0], n, 0);
  }

  /**
   * compute_lps: fill the table left to right, extending the current
   * border on a match, falling back along the table on a mismatch, and
   * writing 0 when no border is left. The pattern must not be empty.
   */
  method ComputeLps(p: seq<char>) returns (lps: seq<nat>)
    requires |p| >= 1
    ensures LpsUpTo(p, lps, |p|)
  {
    lps := seq(|p|, _ => 0);
    var prev: nat := 0;
    var i: nat := 1;
    LpsStart(p, lps);
    while i < |p|
      invariant LpsLoop(p, lps, i, prev)
      decreases |p| - i, prev
    {
      if p[i] == p[prev] {
        LpsMatch(p, lps, i, prev);
        prev := prev + 1;
        lps := lps[i := prev];
        i := i + 1;
      } else if prev != 0 {
        LpsFallback(p, lps, i, prev);
        prev := lps[prev - 1];
      } else {
        LpsZero(p, lps, i);
        lps := lps[i := 0];
        i := i + 1;
      }
    }
  }

  /**
   * The search loop's state: j characters of p match the text just
   * before i, and no occurrence starts in [pos, i - j).
   */
  predicate SearchInv(s: seq<char>, p: seq<char>, lps: seq<nat>, pos: nat, i: nat, j: nat)
  {
    |p| >= 1 && LpsUpTo(p, lps, |p|) && j < |p| && pos + j <= i &&
    (j > 0 ==> i <= |s|) &&
    (forall t :: 0 <= t < j ==> s[i - j + t] == p[t]) &&
    (forall k :: pos <= k < i - j ==> !MatchAt(s, p, k))
  }

  /** An occurrence starting inside the matched window would make a border of p[..j]. */
  lemma WindowBorder(s: seq<char>, p: seq<char>, i: nat, j: nat, b: nat)
    requires j <= |p| && j <= i <= |s| && b < j
    requires forall t :: 0 <= t < j ==> s[i - j + t] == p[t]
    ensures MatchAt(s, p, i - b) ==> Border(p, j, b)
  {
    if MatchAt(s, p, i - b) {
      forall t | 0 <= t < b ensures p[t] == p[j - b + t] {
        assert s[i - b + t] == p[t];
        assert s[i - j + (j - b + t)] == p[j - b + t];
      }
    }
  }

  /** A mismatch after j > 0 matched characters: fall back to lps[j - 1]. */
  lemma SearchFallback(s: seq<char>, p: seq<char>, lps: seq<nat>, pos: nat, i: nat, j: nat)
    requires SearchInv(s, p, lps, pos, i, j) && i < |s| && j > 0 && s[i] != p[j]
    ensures lps[j - 1] < j && SearchInv(s, p, lps, pos, i, lps[j - 1])
  {
    var q := lps[j - 1];
    forall k | i - j <= k < i - q ensures !MatchAt(s, p, k) {
      if k > i - j {
        WindowBorder(s, p, i, j, i - k);
      } else {
        assert s[k + j] != p[j];
      }
    }
    forall t | 0 <= t < q ensures s[i - q + t] == p[t] {
      assert p[t] == p[j - q + t];
      assert s[i - j + (j - q + t)] == p[j - q + t];
    }
  }

  /** A mismatch with nothing matched: no occurrence starts at i. */
  lemma SearchSkip(s: seq<char>, p: seq<char>, lps: seq<nat>, pos: nat, i: nat)
    requires SearchInv(s, p, lps, pos, i, 0) && i < |s| && s[i] != p[0]
    ensures SearchInv(s, p, lps, pos, i + 1, 0)
  {
    assert !MatchAt(s, p, i);
  }

  /** A match step: one more character of p matches before i + 1. */
  lemma SearchStep(s: seq<char>, p: seq<char>, lps: seq<nat>, pos: nat, i: nat, j: nat)
    requires SearchInv(s, p, lps, pos, i, j) && i < |s| && s[i] == p[j]
    ensures j + 1 == |p| ==> MatchAt(s, p, i - j)
    ensures j + 1 < |p| ==> SearchInv(s, p, lps, pos, i + 1, j + 1)
  {
    assert forall t :: 0 <= t < j + 1 ==> s[i - j + t] == p[t];
  }

  /** The text ran out: no occurrence starts at or after pos. */
  lemma SearchDone(s: seq<char>, p: seq<char>, lps: seq<nat>, pos: nat, i: nat, j: nat)
    requires SearchInv(s, p, lps, pos, i, j) && i >= |s|
    ensures forall k :: pos <= k ==> !MatchAt(s, p, k)
  {
  }

  /**
   * find_impl: an empty pattern is found at pos when pos is within the
   * string (None, standing for npos, otherwise); a non-empty one by the
   * KMP scan from pos. Either way the result is the first occurrence at
   * or after pos, and None exactly when there is none.
   */
  method Find(s: seq<char>, p: seq<char>, pos: nat) returns (r: Option<nat>)
    ensures r.Some? ==> pos <= r.value && MatchAt(s, p, r.value)
    ensures r.Some? ==> forall k :: pos <= k < r.value ==> !MatchAt(s, p, k)
    ensures r.None? ==> forall k :: pos <= k ==> !MatchAt(s, p, k)
  {
    if |p| == 0 {
      return if pos <= |s| then Some(pos) else None;
    }
    var lps := ComputeLps(p);
    var i: nat, j: nat := pos, 0;
    while i < |s|
      invariant SearchInv(s, p, lps, pos, i, j)
      decreases |s| - i, j
    {
      if s[i] == p[j] {
        SearchStep(s, p, lps, pos, i, j);
        i, j := i + 1, j + 1;
        if j == |p| {
          return Some(i - j);
        }
      } else if j > 0 {
        SearchFallback(s, p, lps, pos, i, j);
        j := lps[j - 1];
      } else {
        SearchSkip(s, p, lps, pos, i);
        i := i + 1;
      }
    }
    SearchDone(s, p, lps, pos, i, j);
    return None;
  }
}
