/**
 * The string primitives of the PHP runtime the filter is built on:
 * `str_replace` with one search string, `str_repeat`, `implode` and
 * `explode` on a one-character delimiter.
 */
module Text {

  /** `p` occurs in `s` starting at index `i`. */
  predicate OccursAt(s: string, p: string, i: int)
  {
    0 <= i && i + |p| <= |s| && s[i..i + |p|] == p
  }

  predicate Occurs(s: string, p: string)
  {
    exists i :: 0 <= i <= |s| - |p| && OccursAt(s, p, i)
  }

  /**
   * No non-empty proper prefix of `p` ends `s`: an occurrence of `p` found in
   * `s + t` never straddles the boundary between the two.
   */
  predicate NoPartialSuffix(s: string, p: string)
  {
    forall k :: 1 <= k < |p| && k <= |s| ==> s[|s| - k..] != p[..k]
  }

  /**
   * `str_replace(p, r, s)`: scan left to right and replace every
   * non-overlapping occurrence of `p`; an empty `p` changes nothing.
   */
  function ReplaceAll(s: string, p: string, r: string): string
    decreases |s|
  {
    if p == [] || |s| < |p| then s
    else if s[..|p|] == p then r + ReplaceAll(s[|p|..], p, r)
    else [s[0]] + ReplaceAll(s[1..], p, r)
  }

  /** Where `p` does not occur, nothing is replaced. */
  lemma {:induction false} ReplaceAllAbsent(s: string, p: string, r: string)
    requires !Occurs(s, p)
    ensures ReplaceAll(s, p, r) == s
    decreases |s|
  {
    if p != [] && |s| >= |p| {
      assert s[..|p|] != p by {
        assert !OccursAt(s, p, 0);
      }
      assert !Occurs(s[1..], p) by {
        forall i | OccursAt(s[1..], p, i) ensures OccursAt(s, p, i + 1) {
          assert s[1..][i..i + |p|] == s[i + 1..i + 1 + |p|];
        }
      }
      ReplaceAllAbsent(s[1..], p, r);
    }
  }

  /** A suffix of a string without a partial match at its end has none either. */
  lemma NoPartialSuffixDrop(a: string, n: nat, p: string)
    requires NoPartialSuffix(a, p) && n <= |a|
    ensures NoPartialSuffix(a[n..], p)
  {
    var a' := a[n..];
    forall k | 1 <= k < |p| && k <= |a'| ensures a'[|a'| - k..] != p[..k] {
      assert a'[|a'| - k..] == a[|a| - k..];
    }
  }

  /** A match at the start of `a + b` lies wholly inside `a`. */
  lemma NoStraddle(a: string, b: string, p: string)
    requires NoPartialSuffix(a, p) && a != [] && p != []
    requires |a + b| >= |p| && (a + b)[..|p|] == p
    ensures |a| >= |p| && a[..|p|] == p
  {
    var m := if |a| < |p| then |a| else |p|;
    assert a[..m] == (a + b)[..m] == p[..m];
    assert a[|a| - |a|..] == a[..|a|] == a;
  }

  /** Replacing in `a + b` is replacing in each part when no match straddles them. */
  lemma {:induction false} ReplaceAllSplit(a: string, b: string, p: string, r: string)
    requires NoPartialSuffix(a, p)
    ensures ReplaceAll(a + b, p, r) == ReplaceAll(a, p, r) + ReplaceAll(b, p, r)
    decreases |a|
  {
    var s := a + b;
    if a == [] {
      assert s == b;
    } else if p == [] {
    } else if |s| < |p| {
      assert ReplaceAll(a, p, r) == a && ReplaceAll(b, p, r) == b;
    } else if s[..|p|] == p {
      NoStraddle(a, b, p);
      NoPartialSuffixDrop(a, |p|, p);
      ReplaceAllSplit(a[|p|..], b, p, r);
      SplitAfterMatch(a, b, p, r);
    } else {
      NoPartialSuffixDrop(a, 1, p);
      ReplaceAllSplit(a[1..], b, p, r);
      SplitAfterSkip(a, b, p, r);
    }
  }

  /** No occurrence of `p` in `a + b` starts inside `a` and ends inside `b`. */
  predicate Unstraddled(a: string, b: string, p: string)
  {
    forall i :: 0 <= i < |a| < i + |p| ==> !OccursAt(a + b, p, i)
  }

  /**
   * Replacing in `a + b` is replacing in each part exactly when the scan
   * never meets an occurrence that straddles them.
   */
  lemma {:induction false} ReplaceAllSplitUnstraddled(a: string, b: string, p: string, r: string)
    requires Unstraddled(a, b, p)
    ensures ReplaceAll(a + b, p, r) == ReplaceAll(a, p, r) + ReplaceAll(b, p, r)
    decreases |a|
  {
    var s := a + b;
    if a == [] {
      assert s == b;
    } else if p == [] {
    } else if |s| < |p| {
      assert ReplaceAll(a, p, r) == a && ReplaceAll(b, p, r) == b;
    } else if s[..|p|] == p {
      assert OccursAt(s, p, 0);
      assert |a| >= |p| && a[..|p|] == p;
      var a' := a[|p|..];
      assert a' + b == s[|p|..];
      forall i | 0 <= i < |a'| < i + |p| ensures !OccursAt(a' + b, p, i) {
        OccursShift(s, |p|, p, i);
      }
      ReplaceAllSplitUnstraddled(a', b, p, r);
      SplitAfterMatch(a, b, p, r);
    } else {
      var a' := a[1..];
      assert a' + b == s[1..];
      forall i | 0 <= i < |a'| < i + |p| ensures !OccursAt(a' + b, p, i) {
        OccursShift(s, 1, p, i);
      }
      ReplaceAllSplitUnstraddled(a', b, p, r);
      SplitAfterSkip(a, b, p, r);
    }
  }

  /** An occurrence in a suffix is an occurrence in the whole, shifted. */
  lemma OccursShift(s: string, k: nat, p: string, i: nat)
    requires k <= |s|
    ensures OccursAt(s[k..], p, i) <==> OccursAt(s, p, i + k)
  {
    if i + |p| <= |s| - k {
      assert s[k..][i..i + |p|] == s[i + k..i + k + |p|];
    }
  }

  /** One step of `ReplaceAllSplit`: an occurrence at the start of `a` is replaced. */
  lemma SplitAfterMatch(a: string, b: string, p: string, r: string)
    requires p != [] && |a| >= |p| && a[..|p|] == p
    requires ReplaceAll(a[|p|..] + b, p, r) == ReplaceAll(a[|p|..], p, r) + ReplaceAll(b, p, r)
    ensures ReplaceAll(a + b, p, r) == ReplaceAll(a, p, r) + ReplaceAll(b, p, r)
  {
    var s := a + b;
    assert s[..|p|] == p && s[|p|..] == a[|p|..] + b;
    assert ReplaceAll(s, p, r) == r + ReplaceAll(a[|p|..] + b, p, r);
  }

  /** One step of `ReplaceAllSplit`: the first character of `a` is kept. */
  lemma SplitAfterSkip(a: string, b: string, p: string, r: string)
    requires p != [] && a != [] && |a + b| >= |p| && (a + b)[..|p|] != p
    requires ReplaceAll(a[1..] + b, p, r) == ReplaceAll(a[1..], p, r) + ReplaceAll(b, p, r)
    ensures ReplaceAll(a + b, p, r) == ReplaceAll(a, p, r) + ReplaceAll(b, p, r)
  {
    var s := a + b;
    assert s[1..] == a[1..] + b && s[0] == a[0];
    assert ReplaceAll(s, p, r) == [a[0]] + ReplaceAll(a[1..] + b, p, r);
    SkipFirst(a, b, p, r);
  }

  /** Where `a + b` does not start with `p`, neither does `a`, so its first character is kept. */
  lemma SkipFirst(a: string, b: string, p: string, r: string)
    requires p != [] && a != [] && |a + b| >= |p| && (a + b)[..|p|] != p
    ensures ReplaceAll(a, p, r) == [a[0]] + ReplaceAll(a[1..], p, r)
  {
    if |a| >= |p| {
      assert a[..|p|] == (a + b)[..|p|];
    } else {
      assert ReplaceAll(a[1..], p, r) == a[1..];
      assert a == [a[0]] + a[1..];
    }
  }

  /** An occurrence at the very start is replaced. */
  lemma ReplaceAllLeading(p: string, b: string, r: string)
    requires p != []
    ensures ReplaceAll(p + b, p, r) == r + ReplaceAll(b, p, r)
  {
    assert (p + b)[..|p|] == p;
    assert (p + b)[|p|..] == b;
  }

  /** `implode(sep, parts)`. */
  function Join(parts: seq<string>, sep: string): string
    requires |parts| > 0
  {
    if |parts| == 1 then parts[0] else parts[0] + sep + Join(parts[1..], sep)
  }

  /**
   * Every occurrence is replaced, not only the first: a text made of pieces
   * separated by `p`, none of which contains or half-ends with `p`, comes out
   * as the same pieces separated by `r`.
   */
  lemma {:induction false} ReplaceEveryOccurrence(parts: seq<string>, p: string, r: string)
    requires |parts| > 0 && p != []
    requires forall i :: 0 <= i < |parts| ==> !Occurs(parts[i], p) && NoPartialSuffix(parts[i], p)
    ensures ReplaceAll(Join(parts, p), p, r) == Join(parts, r)
  {
    ReplaceAllAbsent(parts[0], p, r);
    if |parts| > 1 {
      var rest := Join(parts[1..], p);
      assert Join(parts, p) == parts[0] + (p + rest);
      ReplaceAllSplit(parts[0], p + rest, p, r);
      ReplaceAllLeading(p, rest, r);
      ReplaceEveryOccurrence(parts[1..], p, r);
    }
  }

  /** `str_repeat(c, n)` for a one-character string. */
  function Repeat(c: char, n: nat): (r: string)
    ensures |r| == n
    ensures forall i :: 0 <= i < n ==> r[i] == c
  {
    if n == 0 then [] else [c] + Repeat(c, n - 1)
  }

  /** `explode(d, s)` for a one-character delimiter `d`. */
  function Split(s: string, d: char): (r: seq<string>)
    ensures |r| > 0
  {
    if s == [] then [""]
    else
      var rest := Split(s[1..], d);
      if s[0] == d then [""] + rest else [[s[0]] + rest[0]] + rest[1..]
  }

  lemma {:induction false} SplitNoDelimiter(x: string, y: string, d: char)
    requires d !in x
    ensures Split(x + [d] + y, d) == [x] + Split(y, d)
    ensures Split(x, d) == [x]
  {
    if x == [] {
      assert x + [d] + y == [d] + y;
      assert ([d] + y)[1..] == y;
    } else {
      assert (x + [d] + y)[1..] == x[1..] + [d] + y;
      SplitNoDelimiter(x[1..], y, d);
      assert [x[0]] + x[1..] == x;
    }
  }

  /** `explode` undoes `implode` when no piece contains the delimiter. */
  lemma {:induction false} SplitJoin(parts: seq<string>, d: char)
    requires |parts| > 0
    requires forall i :: 0 <= i < |parts| ==> d !in parts[i]
    ensures Split(Join(parts, [d]), d) == parts
  {
    if |parts| == 1 {
      SplitNoDelimiter(parts[0], "", d);
    } else {
      SplitNoDelimiter(parts[0], Join(parts[1..], [d]), d);
      SplitJoin(parts[1..], d);
    }
  }
}
