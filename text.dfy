/**
 * The string primitives the match/replace tab relies on, written as
 * Python's `str` methods behave: `in`, `find`, `split(sep)`, `sep.join`,
 * `str.replace` and clamped slicing. A message is a `string`; the host's
 * byte/string conversions are the identity on one byte per character.
 */
module Text {

  datatype Option<T> = None | Some(value: T)

  /** `p` occurs in `s` starting at index `i`. */
  predicate OccursAt(s: string, p: string, i: nat) {
    i + |p| <= |s| && s[i..i + |p|] == p
  }

  /** The index of the leftmost occurrence of `p` in `s` (Python's `s.find(p)`). */
  function IndexOf(s: string, p: string): (r: Option<nat>)
    ensures r.Some? ==> OccursAt(s, p, r.value)
    ensures r.Some? ==> forall j: nat :: j < r.value ==> !OccursAt(s, p, j)
    ensures r.None? ==> forall j: nat :: !OccursAt(s, p, j)
    decreases |s|
  {
    if |s| < |p| then None
    else if s[..|p|] == p then Some(0)
    else
      assert !OccursAt(s, p, 0) by { assert s[0..|p|] == s[..|p|]; }
      OccursShift(s, p);
      match IndexOf(s[1..], p)
      case None => None
      case Some(j) => Some(j + 1)
  }

  /** Python's `p in s`. */
  predicate Contains(s: string, p: string) {
    IndexOf(s, p).Some?
  }

  /** Occurrences in `s` past index 0 are the occurrences in `s[1..]`, shifted by one. */
  lemma OccursShift(s: string, p: string)
    requires |s| > 0
    ensures forall j: nat :: 1 <= j ==> OccursAt(s, p, j) == OccursAt(s[1..], p, j - 1)
  {
    forall j: nat | 1 <= j
      ensures OccursAt(s, p, j) == OccursAt(s[1..], p, j - 1)
    {
      if j + |p| <= |s| {
        var a, b := s[j..j + |p|], s[1..][j - 1..j - 1 + |p|];
        assert |a| == |b| == |p|;
        forall k | 0 <= k < |p| ensures a[k] == b[k] {
          assert a[k] == s[j + k];
          assert b[k] == s[1..][j - 1 + k];
        }
        assert a == b;
      }
    }
  }

  /** An occurrence inside a prefix is an occurrence in the whole string. */
  lemma OccursInPrefix(s: string, p: string, i: nat, j: nat)
    requires i <= |s| && OccursAt(s[..i], p, j)
    ensures OccursAt(s, p, j)
  {
    assert s[..i][j..j + |p|] == s[j..j + |p|];
  }

  /** A slice of a slice is a slice of the original. */
  lemma SliceOfSlice(s: string, i: nat, j: nat, k: nat, l: nat)
    requires i <= j <= |s| && k <= l <= j - i
    ensures s[i..j][k..l] == s[i + k..i + l]
  {
    var a, b := s[i..j][k..l], s[i + k..i + l];
    assert |a| == |b|;
    forall n | 0 <= n < |a| ensures a[n] == b[n] {
      assert a[n] == s[i..j][k + n] == s[i + k + n];
    }
  }

  /** A string is its three slices at `i` and `j`, put back together. */
  lemma Slices3(s: string, i: nat, j: nat)
    requires i <= j <= |s|
    ensures s == s[..i] + s[i..j] + s[j..]
  {
  }

  /** Whatever comes before the leftmost occurrence of `p` does not contain `p`. */
  lemma {:induction false} BeforeFirstIsFree(s: string, p: string, i: nat)
    requires p != [] && IndexOf(s, p) == Some(i)
    ensures !Contains(s[..i], p)
  {
    if Contains(s[..i], p) {
      var j := IndexOf(s[..i], p).value;
      OccursInPrefix(s, p, i, j);
    }
  }

  /** Python's `s.split(d)` for a non-empty separator `d`. */
  function Split(s: string, d: string): (parts: seq<string>)
    requires d != []
    ensures |parts| >= 1
    decreases |s|
  {
    match IndexOf(s, d)
    case None => [s]
    case Some(i) => [s[..i]] + Split(s[i + |d|..], d)
  }

  /** Python's `d.join(parts)`. */
  function Join(parts: seq<string>, d: string): string
  {
    if |parts| == 0 then []
    else if |parts| == 1 then parts[0]
    else parts[0] + d + Join(parts[1..], d)
  }

  /** Joining the pieces of a split with the same separator gives back the string. */
  lemma {:induction false} JoinSplit(s: string, d: string)
    requires d != []
    ensures Join(Split(s, d), d) == s
    decreases |s|
  {
    match IndexOf(s, d)
    case None =>
    case Some(i) =>
      var rest := s[i + |d|..];
      JoinSplit(rest, d);
      var parts := Split(s, d);
      assert parts == [s[..i]] + Split(rest, d);
      assert parts[1..] == Split(rest, d);
      SpliceAt(s, d, i);
  }

  /** A string is the text before an occurrence, the occurrence, and the text after it. */
  lemma SpliceAt(s: string, p: string, i: nat)
    requires OccursAt(s, p, i)
    ensures s == s[..i] + p + s[i + |p|..]
  {
    assert s == s[..i] + s[i..i + |p|] + s[i + |p|..];
  }

  /**
   * The first piece of a split is the text before the leftmost separator, and
   * the remaining pieces joined back are the text after it.
   */
  lemma SplitFirst(s: string, d: string)
    requires d != []
    ensures var parts := Split(s, d);
      && !Contains(parts[0], d)
      && (!Contains(s, d) ==> parts == [s])
      && (Contains(s, d) ==> s == parts[0] + d + Join(parts[1..], d))
  {
    match IndexOf(s, d)
    case None =>
    case Some(i) =>
      BeforeFirstIsFree(s, d, i);
      JoinSplit(s, d);
      assert |Split(s[i + |d|..], d)| >= 1;
  }

  /**
   * Python's `s.replace(p, r)` for a non-empty `p`: the text before the
   * leftmost occurrence is copied, the occurrence becomes `r`, and the
   * replacement carries on after it, so occurrences are taken left to right
   * and never overlap.
   */
  function ReplaceAll(s: string, p: string, r: string): string
    requires p != []
    decreases |s|
  {
    match IndexOf(s, p)
    case None => s
    case Some(i) => s[..i] + r + ReplaceAll(s[i + |p|..], p, r)
  }

  /** How many occurrences ReplaceAll rewrites: leftmost first, non-overlapping. */
  function Count(s: string, p: string): nat
    requires p != []
    decreases |s|
  {
    match IndexOf(s, p)
    case None => 0
    case Some(i) => 1 + Count(s[i + |p|..], p)
  }

  /** Each rewritten occurrence changes the length by |r| - |p|, and nothing else does. */
  lemma {:induction false} ReplaceAllLength(s: string, p: string, r: string)
    requires p != []
    ensures |ReplaceAll(s, p, r)| == |s| + Count(s, p) * (|r| - |p|)
    decreases |s|
  {
    if IndexOf(s, p).Some? {
      var i := IndexOf(s, p).value;
      var rest := s[i + |p|..];
      ReplaceAllLength(rest, p, r);
      ReplaceAllAt(s, p, r, i);
      CountAt(s, p, i);
      assert i + |p| <= |s| by { assert OccursAt(s, p, i); }
      assert |s| == i + |p| + |rest|;
      assert |s[..i] + r + ReplaceAll(rest, p, r)| == i + |r| + |ReplaceAll(rest, p, r)|;
      LengthStep(i, |p|, |r|, |rest|, |ReplaceAll(rest, p, r)|, Count(rest, p));
    }
  }

  /** ReplaceAll, and Count below, at a known leftmost occurrence. */
  lemma ReplaceAllAt(s: string, p: string, r: string, i: nat)
    requires p != [] && IndexOf(s, p) == Some(i)
    ensures ReplaceAll(s, p, r) == s[..i] + r + ReplaceAll(s[i + |p|..], p, r)
  {
  }

  lemma CountAt(s: string, p: string, i: nat)
    requires p != [] && IndexOf(s, p) == Some(i)
    ensures Count(s, p) == 1 + Count(s[i + |p|..], p)
  {
  }

  lemma LengthStep(before: nat, lp: nat, lr: nat, restIn: nat, restOut: nat, c: nat)
    requires restOut == restIn + c * (lr - lp)
    ensures before + lr + restOut == (before + lp + restIn) + (1 + c) * (lr - lp)
  {
  }

  /** A pattern occurs exactly when there is something to rewrite. */
  lemma CountPositive(s: string, p: string)
    requires p != []
    ensures Count(s, p) > 0 <==> Contains(s, p)
  {
  }

  /** Replacing a pattern that does not occur leaves the text unchanged. */
  lemma ReplaceAllAbsent(s: string, p: string, r: string)
    requires p != [] && !Contains(s, p)
    ensures ReplaceAll(s, p, r) == s
  {
  }

  /** Replacing a pattern by itself leaves the text unchanged. */
  lemma {:induction false} ReplaceAllSelf(s: string, p: string)
    requires p != []
    ensures ReplaceAll(s, p, p) == s
    decreases |s|
  {
    match IndexOf(s, p)
    case None =>
    case Some(i) =>
      ReplaceAllSelf(s[i + |p|..], p);
      SpliceAt(s, p, i);
  }

  /**
   * A non-empty replacement that shares no character with the pattern leaves
   * no occurrence behind: an occurrence in the result would lie in a kept
   * gap (which holds none) or touch the replacement, putting one of its
   * characters into the pattern. With an empty replacement this fails:
   * "ffoooo" with "foo" removed gives "foo".
   */
  lemma {:induction false} ReplaceAllLeavesNone(s: string, p: string, r: string)
    requires p != [] && r != []
    requires forall c :: c in p ==> c !in r
    ensures !Contains(ReplaceAll(s, p, r), p)
    decreases |s|
  {
    match IndexOf(s, p)
    case None =>
    case Some(i) =>
      var rest := s[i + |p|..];
      ReplaceAllLeavesNone(rest, p, r);
      ReplaceAllAt(s, p, r, i);
      BeforeFirstIsFree(s, p, i);
      var out := s[..i] + r + ReplaceAll(rest, p, r);
      if Contains(out, p) {
        var k := IndexOf(out, p).value;
        NoStraddle(s[..i], r, ReplaceAll(rest, p, r), p, k);
        assert false;
      }
  }

  /** No occurrence of `p` in `a + r + b` when `a` and `b` hold none and `r` shares no character with `p`. */
  lemma NoStraddle(a: string, r: string, b: string, p: string, k: nat)
    requires p != [] && r != []
    requires forall c :: c in p ==> c !in r
    requires !Contains(a, p) && !Contains(b, p)
    ensures !OccursAt(a + r + b, p, k)
  {
    var x := a + r + b;
    if OccursAt(x, p, k) {
      if k + |p| <= |a| {
        assert a[k..k + |p|] == x[k..k + |p|];
        assert OccursAt(a, p, k);
      } else if k < |a| {
        SharedChar(a, r, b, p, k, |a|);
      } else if k < |a| + |r| {
        SharedChar(a, r, b, p, k, k);
      } else {
        var j := k - |a| - |r|;
        assert b[j..j + |p|] == x[k..k + |p|];
        assert OccursAt(b, p, j);
      }
    }
  }

  /** A character of an occurrence that lies inside `r` is in both `p` and `r`. */
  lemma SharedChar(a: string, r: string, b: string, p: string, k: nat, i: nat)
    requires OccursAt(a + r + b, p, k) && k <= i < k + |p| && |a| <= i < |a| + |r|
    ensures (a + r + b)[i] in p && (a + r + b)[i] in r
  {
    var x := a + r + b;
    assert x[k..k + |p|][i - k] == x[i];
    assert x[i] == r[i - |a|];
  }

  /** Under the same conditions a second identical replace is a no-op. */
  lemma ReplaceAllTwice(s: string, p: string, r: string)
    requires p != [] && r != []
    requires forall c :: c in p ==> c !in r
    ensures ReplaceAll(ReplaceAll(s, p, r), p, r) == ReplaceAll(s, p, r)
  {
    ReplaceAllLeavesNone(s, p, r);
    ReplaceAllAbsent(ReplaceAll(s, p, r), p, r);
  }

  function Min(a: nat, b: nat): nat { if a <= b then a else b }

  /** Python's `s[:i]` for a non-negative `i`. */
  function Take(s: string, i: nat): (r: string)
    ensures i <= |s| ==> r == s[..i]
    ensures |s| <= i ==> r == s
  {
    s[..Min(i, |s|)]
  }

  /** Python's `s[i:]` for a non-negative `i`. */
  function Drop(s: string, i: nat): (r: string)
    ensures i <= |s| ==> r == s[i..]
    ensures |s| <= i ==> r == []
  {
    s[Min(i, |s|)..]
  }

  /** Python's `s[:i] + s[i:] == s`, for any non-negative `i`. */
  lemma TakeDrop(s: string, i: nat)
    ensures Take(s, i) + Drop(s, i) == s
  {
    if i <= |s| {
      assert s[..i] + s[i..] == s;
    }
  }

  /** Python's `s[i:j]` for non-negative `i` and `j`: both clamped to the length, and empty when `j <= i`. */
  function Slice(s: string, i: nat, j: nat): (r: string)
    ensures i <= j <= |s| ==> r == s[i..j]
    ensures i <= |s| <= j ==> r == s[i..]
    ensures |s| <= i || j <= i ==> r == []
  {
    var a, b := Min(i, |s|), Min(j, |s|);
    if a < b then s[a..b] else []
  }
}
