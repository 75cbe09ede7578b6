/** Facts about slices of concatenated sequences, stated for any element type
    so that they are proved once, away from the byte-level definitions. */
module Seqs {

  /** A slice of the first part of a concatenation. */
  lemma SliceLeft<T>(a: seq<T>, b: seq<T>, lo: int, hi: int)
    requires 0 <= lo <= hi <= |a|
    ensures (a + b)[lo..hi] == a[lo..hi]
  {
  }

  /** A slice of the second part of a concatenation. */
  lemma SliceLeftIs<T>(a: seq<T>, b: seq<T>, lo: int, hi: int, piece: seq<T>)
    requires 0 <= lo <= hi <= |a| && a[lo..hi] == piece
    ensures (a + b)[lo..hi] == piece
  {
    SliceLeft(a, b, lo, hi);
  }

  lemma SliceRightIs<T>(a: seq<T>, b: seq<T>, lo: int, hi: int)
    requires lo == |a| && hi == |a| + |b|
    ensures (a + b)[lo..hi] == b
  {
    assert (a + b)[lo..hi] == b;
  }

  lemma SliceMiddleIs<T>(a: seq<T>, b: seq<T>, c: seq<T>, lo: int, hi: int, x: int, y: int, piece: seq<T>)
    requires 0 <= lo <= hi <= |b| && b[lo..hi] == piece && x == |a| + lo && y == |a| + hi
    ensures y <= |a| + |b| <= |a + b + c| && (a + b + c)[x..y] == piece
  {
    SliceMiddle(a, b, c, lo, hi);
  }

  lemma SliceLastIs<T>(a: seq<T>, b: seq<T>, c: seq<T>, lo: int, hi: int, x: int, y: int, piece: seq<T>)
    requires 0 <= lo <= hi <= |c| && c[lo..hi] == piece && x == |a| + |b| + lo && y == |a| + |b| + hi
    ensures y <= |a + b + c| && (a + b + c)[x..y] == piece
  {
    SliceLast(a, b, c, lo, hi);
  }

  lemma SliceRight<T>(a: seq<T>, b: seq<T>, lo: int, hi: int)
    requires 0 <= lo <= hi <= |b|
    ensures (a + b)[|a| + lo..|a| + hi] == b[lo..hi]
  {
  }

  /** A slice of the middle part of a concatenation of three. */
  lemma SliceMiddle<T>(a: seq<T>, b: seq<T>, c: seq<T>, lo: int, hi: int)
    requires 0 <= lo <= hi <= |b|
    ensures (a + b + c)[|a| + lo..|a| + hi] == b[lo..hi]
  {
  }

  /** A slice of the last part of a concatenation of three. */
  lemma SliceLast<T>(a: seq<T>, b: seq<T>, c: seq<T>, lo: int, hi: int)
    requires 0 <= lo <= hi <= |c|
    ensures (a + b + c)[|a| + |b| + lo..|a| + |b| + hi] == c[lo..hi]
  {
  }

  /** The slice from the start to the end is the whole sequence. */
  lemma WholeSlice<T>(s: seq<T>)
    ensures s[0..|s|] == s
  {
  }

  /** A slice of a slice. */
  lemma SliceOfSlice<T>(s: seq<T>, lo: int, hi: int, i: int, j: int)
    requires 0 <= lo <= hi <= |s| && 0 <= i <= j <= hi - lo
    ensures s[lo..hi][i..j] == s[lo + i..lo + j]
  {
    var u := s[lo..hi];
    forall k | 0 <= k < j - i
      ensures u[i..j][k] == s[lo + i..lo + j][k]
    {
      assert u[i..j][k] == u[i + k];
      assert u[i + k] == s[lo + i + k];
    }
  }

  /** A prefix one longer is the prefix with the next element appended. */
  lemma PrefixSnoc<T>(s: seq<T>, k: int)
    requires 0 <= k < |s|
    ensures s[..k + 1] == s[..k] + [s[k]]
  {
  }

  /** A prefix that ends in `x` shows where `x` sits in the whole sequence. */
  lemma LastOfPrefix<T>(whole: seq<T>, init: seq<T>, x: T, m: int)
    requires 0 <= m <= |whole| && whole[..m] == init + [x]
    ensures |init| < |whole| && whole[|init|] == x
  {
    assert whole[..m][|init|] == x;
  }

  /** The element before a suffix, put in front of it. */
  lemma ConsSuffix<T>(s: seq<T>, k: int)
    requires 0 < k <= |s|
    ensures [s[k - 1]] + s[k..] == s[k - 1..]
  {
  }

  /** Concatenation is associative. */
  lemma Assoc<T>(a: seq<T>, b: seq<T>, c: seq<T>)
    ensures a + b + c == a + (b + c)
  {
  }

  /** Dropping the first part of a concatenation of three. */
  lemma DropFirst<T>(a: seq<T>, b: seq<T>, c: seq<T>)
    ensures (a + b + c)[|a|..] == b + c
  {
  }

  /** `w + t` found in `s` between `i` and `hi`, where `w` is `a + r`: `a`
      sits between `i` and `mid`, and `r + t` from `mid` to `end`. */
  lemma SplitThree<T>(s: seq<T>, i: int, a: seq<T>, r: seq<T>, t: seq<T>, w: seq<T>, hi: int, mid: int, end: int)
    requires w == a + r && 0 <= i && hi == i + |w| + |t| && hi <= |s| && s[i..hi] == w + t
    requires mid == i + |a| && end == mid + |r| + |t|
    ensures mid <= end <= |s| && s[i..mid] == a && s[mid..end] == r + t
  {
    Assoc(a, r, t);
    SplitAt(s, i, a, r + t);
  }

  /** `a + b` found in `s` between `i` and `end` splits into its two parts. */
  lemma SplitAtIs<T>(s: seq<T>, i: int, a: seq<T>, b: seq<T>, end: int)
    requires 0 <= i && end == i + |a| + |b| && end <= |s| && s[i..end] == a + b
    ensures s[i..i + |a|] == a && s[i + |a|..end] == b
  {
    SplitAt(s, i, a, b);
  }

  /** `[y] + r` found in `s` between `i` and `end`: `y` at `i`, then `r`. */
  lemma Led<T>(s: seq<T>, i: int, y: T, r: seq<T>, end: int)
    requires 0 <= i && end == i + 1 + |r| && end <= |s| && s[i..end] == [y] + r
    ensures s[i] == y && s[i + 1..end] == r
  {
    SplitAtIs(s, i, [y], r, end);
    assert s[i] == s[i..end][0];
  }

  /** `a + ([y] + r)` found in `s` between `j` and `end`: `a`, the single
      `y` after it, then `r`. */
  lemma Marked<T>(s: seq<T>, j: int, a: seq<T>, y: T, r: seq<T>, end: int)
    requires 0 <= j && end == j + |a| + 1 + |r| && end <= |s| && s[j..end] == a + ([y] + r)
    ensures s[j..j + |a|] == a && s[j + |a|] == y && s[j + |a| + 1..end] == r
  {
    SplitAtIs(s, j, a, [y] + r, end);
    Led(s, j + |a|, y, r, end);
  }

  /** A concatenation found in `s` at `i` splits into its two parts. */
  lemma SplitAt<T>(s: seq<T>, i: int, a: seq<T>, b: seq<T>)
    requires 0 <= i && i + |a| + |b| <= |s| && s[i..i + |a| + |b|] == a + b
    ensures s[i..i + |a|] == a && s[i + |a|..i + |a| + |b|] == b
  {
    SliceOfSlice(s, i, i + |a| + |b|, 0, |a|);
    SliceOfSlice(s, i, i + |a| + |b|, |a|, |a| + |b|);
  }


  /** A slice that holds a non-empty `ds`: its first element, then the rest. */
  lemma SliceTail<T>(s: seq<T>, i: int, ds: seq<T>)
    requires 0 <= i && i + |ds| <= |s| && ds != [] && s[i..i + |ds|] == ds
    ensures s[i] == ds[0] && s[i + 1..i + 1 + |ds[1..]|] == ds[1..] && i + 1 + |ds[1..]| == i + |ds|
  {
    assert s[i] == s[i..i + |ds|][0];
    assert s[i + 1..i + 1 + |ds[1..]|] == s[i..i + |ds|][1..];
  }
}
