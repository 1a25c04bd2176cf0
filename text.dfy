/**
 * The string primitives the publisher and the edge function rely on:
 * Go's strings.HasSuffix, strings.TrimSuffix and path.Ext, and
 * JavaScript's String.prototype.endsWith and String.prototype.includes.
 */
module Text {

  /** Go's strings.HasSuffix; JavaScript's endsWith behaves identically on a string argument. */
  predicate HasSuffix(s: string, suffix: string)
  {
    |suffix| <= |s| && s[|s| - |suffix|..] == suffix
  }

  /** A string has a suffix exactly when it is some prefix of itself followed by that suffix. */
  lemma HasSuffixSplits(s: string, suffix: string)
    ensures HasSuffix(s, suffix) <==> |suffix| <= |s| && s[..|s| - |suffix|] + suffix == s
  {
    if |suffix| <= |s| && s[..|s| - |suffix|] + suffix == s {
      assert s[|s| - |suffix|..] == (s[..|s| - |suffix|] + suffix)[|s| - |suffix|..];
    }
  }

  /** Go's strings.TrimSuffix: removes the suffix once when it is present. */
  function TrimSuffix(s: string, suffix: string): (r: string)
    ensures HasSuffix(s, suffix) ==> r + suffix == s
    ensures !HasSuffix(s, suffix) ==> r == s
  {
    if HasSuffix(s, suffix) then s[..|s| - |suffix|] else s
  }

  /** Appending a suffix and trimming it again gives the original string back. */
  lemma TrimAppended(base: string, suffix: string)
    ensures HasSuffix(base + suffix, suffix)
    ensures TrimSuffix(base + suffix, suffix) == base
  {
    assert (base + suffix)[|base|..] == suffix;
    assert (base + suffix)[..|base|] == base;
  }

  /** The index of the last '/' at or before index i, or -1 when there is none. */
  function LastSlash(path: string, i: int): (r: int)
    requires -1 <= i < |path|
    ensures -1 <= r <= i
    ensures r >= 0 ==> path[r] == '/'
    ensures forall k :: r < k <= i ==> path[k] != '/'
    decreases i + 1
  {
    if i < 0 || path[i] == '/' then i else LastSlash(path, i - 1)
  }

  /**
   * The backward scan of path.Ext, from index i down to 0: the index of the
   * first '.' met before any '/', or -1 when a '/' or the start comes first.
   */
  function DotScan(path: string, i: int): (d: int)
    requires -1 <= i < |path|
    ensures -1 <= d <= i
    ensures d >= 0 ==> path[d] == '.'
    ensures d >= 0 ==> forall k :: d < k <= i ==> path[k] != '.' && path[k] != '/'
    ensures d < 0 ==> forall k :: LastSlash(path, i) < k <= i ==> path[k] != '.'
    decreases i + 1
  {
    if i < 0 || path[i] == '/' then -1
    else if path[i] == '.' then i
    else DotScan(path, i - 1)
  }

  /**
   * Go's path.Ext: the suffix of the final slash-separated element that
   * starts at its last '.', or "" when that element has no '.'.
   */
  function Ext(path: string): (ext: string)
    ensures ext == "" || (ext[0] == '.' && HasSuffix(path, ext))
    ensures forall k :: 0 < k < |ext| ==> ext[k] != '.' && ext[k] != '/'
    ensures ext == "" ==> forall k :: LastSlash(path, |path| - 1) < k < |path| ==> path[k] != '.'
  {
    var d := DotScan(path, |path| - 1);
    if d < 0 then "" else path[d..]
  }

  /** t occurs in s starting at index i. */
  predicate OccursAt(s: string, t: string, i: int) {
    0 <= i && i + |t| <= |s| && s[i..i + |t|] == t
  }

  /** Occurrences in s[1..] are the occurrences in s from index 1 on, shifted by one. */
  lemma OccursAtShift(s: string, t: string)
    requires |s| > 0
    ensures forall i :: 0 <= i && OccursAt(s[1..], t, i) ==> OccursAt(s, t, i + 1)
    ensures forall j :: 1 <= j && OccursAt(s, t, j) ==> OccursAt(s[1..], t, j - 1)
  {
    forall i | 0 <= i && OccursAt(s[1..], t, i) ensures OccursAt(s, t, i + 1) {
      assert s[1..][i..i + |t|] == s[i + 1..i + 1 + |t|];
    }
    forall j | 1 <= j && OccursAt(s, t, j) ensures OccursAt(s[1..], t, j - 1) {
      assert s[1..][j - 1..j - 1 + |t|] == s[j..j + |t|];
    }
  }

  /** JavaScript's includes: a plain substring test. */
  function Contains(s: string, t: string): (b: bool)
    ensures b <==> exists i :: OccursAt(s, t, i)
    decreases |s|
  {
    if |s| < |t| then false
    else if s[..|t|] == t then assert OccursAt(s, t, 0); true
    else
      OccursAtShift(s, t);
      assert !OccursAt(s, t, 0);
      Contains(s[1..], t)
  }

  /** No window of s equals t when every window differs from t in its first character or its second. */
  lemma NotContains(s: string, t: string)
    requires |t| == 2
    requires forall i :: 0 <= i < |s| - 1 ==> s[i] != t[0] || s[i + 1] != t[1]
    ensures !Contains(s, t)
  {
    forall i | 0 <= i && i + 2 <= |s| ensures !OccursAt(s, t, i) {
      assert s[i..i + 2][0] == s[i] && s[i..i + 2][1] == s[i + 1];
    }
  }

  /** Scanning p within dir + p finds the same '.', shifted by |dir|, when p starts with '/'. */
  lemma {:induction false} DotScanShift(dir: string, p: string, i: int)
    requires 0 <= i < |p| && p[0] == '/'
    ensures DotScan(dir + p, |dir| + i) == if DotScan(p, i) < 0 then -1 else |dir| + DotScan(p, i)
    decreases i
  {
    assert (dir + p)[|dir| + i] == p[i];
    if p[i] != '/' && p[i] != '.' {
      DotScanShift(dir, p, i - 1);
    }
  }

  /** A path starting with '/' keeps its extension under any directory prefix. */
  lemma ExtUnderDirectory(dir: string, p: string)
    requires |p| > 0 && p[0] == '/'
    ensures Ext(dir + p) == Ext(p)
  {
    var q := dir + p;
    assert |q| - 1 == |dir| + (|p| - 1);
    DotScanShift(dir, p, |p| - 1);
    var d := DotScan(p, |p| - 1);
    if d >= 0 {
      assert DotScan(q, |q| - 1) == |dir| + d;
      assert q[|dir|..] == p;
      assert q[|dir| + d..] == q[|dir|..][d..];
      assert Ext(q) == q[|dir| + d..];
    } else {
      assert DotScan(q, |q| - 1) == -1;
    }
  }

  /** The scan stops at the '.' at index j when nothing between j and i is a '.' or a '/'. */
  lemma {:induction false} DotScanFinds(path: string, j: int, i: int)
    requires 0 <= j <= i < |path| && path[j] == '.'
    requires forall k :: j < k <= i ==> path[k] != '.' && path[k] != '/'
    ensures DotScan(path, i) == j
    decreases i
  {
    if i > j {
      DotScanFinds(path, j, i - 1);
    }
  }

  /**
   * A name that ends in an extension (a '.' followed by neither '.' nor '/')
   * has exactly that extension, whatever precedes it.
   */
  lemma ExtOfAppended(base: string, ext: string)
    requires |ext| > 0 && ext[0] == '.'
    requires forall k :: 0 < k < |ext| ==> ext[k] != '.' && ext[k] != '/'
    ensures Ext(base + ext) == ext
  {
    var p := base + ext;
    forall k | |base| < k < |p| ensures p[k] != '.' && p[k] != '/' {
      assert p[k] == ext[k - |base|];
    }
    DotScanFinds(p, |base|, |p| - 1);
    assert p[|base|..] == ext;
  }
}
