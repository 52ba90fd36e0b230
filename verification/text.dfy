/**
 The three Ruby `String` operations the row normaliser is built from:
 `gsub(c, '')` (delete a character), `gsub(a, b)` with one-character
 arguments (substitute a character) and `strip`.
 */
module Text {
  import opened Seqs

  /** The characters Ruby's `String#strip` removes from either end of a
      string: NUL, space, and the ASCII control characters from tab to
      carriage return (tab, line feed, vertical tab, form feed, carriage
      return, which are contiguous code points). */
  predicate IsStripChar(c: char) {
    c == '\0' || c == ' ' || '\t' <= c <= '\r'
  }

  /** Every character of `s` would be removed by `strip`. */
  predicate AllStrip(s: string) {
    forall i :: 0 <= i < |s| ==> IsStripChar(s[i])
  }

  /** `s` neither begins nor ends with a strip character. */
  predicate IsStripped(s: string) {
    |s| == 0 || (!IsStripChar(s[0]) && !IsStripChar(s[|s| - 1]))
  }

  /** The test "is not the character `c`", for filtering. */
  function Other(c: char): char -> bool {
    x => x != c
  }

  /** Ruby's `s.gsub(c, '')`: every occurrence of `c` deleted, everything
      else kept in its original order. */
  function Remove(s: string, c: char): (r: string)
    ensures c !in r
    ensures forall x :: x != c ==> multiset(r)[x] == multiset(s)[x]
    ensures IsSubsequence(r, s)
  {
    var r := Filter(Other(c), s);
    FilterMembers(Other(c), s, c);
    forall x | x != c
      ensures multiset(r)[x] == multiset(s)[x]
    {
      FilterCount(Other(c), s, x);
    }
    FilterSubsequence(Other(c), s);
    r
  }

  /** Deleting a character that does not occur changes nothing. */
  lemma RemoveAbsent(s: string, c: char)
    requires c !in s
    ensures Remove(s, c) == s
  {
    FilterKeepsAll(Other(c), s);
  }

  /** Deletion works piecewise: nothing moves across the seam of a concatenation. */
  lemma RemoveAppend(a: string, b: string, c: char)
    ensures Remove(a + b, c) == Remove(a, c) + Remove(b, c)
  {
    FilterAppend(Other(c), a, b);
  }

  /** Ruby's `s.gsub(from, to)` for one-character `from` and `to`: a
      position-by-position substitution that keeps the length. */
  function Replace(s: string, from: char, to: char): (r: string)
    ensures |r| == |s|
    ensures forall i :: 0 <= i < |s| ==> r[i] == if s[i] == from then to else s[i]
    decreases |s|
  {
    if |s| == 0 then []
    else [if s[0] == from then to else s[0]] + Replace(s[1..], from, to)
  }

  /** Substituting back undoes a substitution when the target character did
      not already occur. */
  lemma ReplaceInverse(s: string, from: char, to: char)
    requires to !in s
    ensures Replace(Replace(s, from, to), to, from) == s
  {
  }

  /** The first index at or after `lo` that holds a character `strip`
      keeps, or `|s|` if there is none. */
  function SkipForward(s: string, lo: nat): (n: nat)
    requires lo <= |s|
    ensures lo <= n <= |s|
    ensures forall k :: lo <= k < n ==> IsStripChar(s[k])
    ensures n == |s| || !IsStripChar(s[n])
    decreases |s| - lo
  {
    if lo == |s| || !IsStripChar(s[lo]) then lo else SkipForward(s, lo + 1)
  }

  /** The end of the last character `strip` keeps in `s[lo..hi]`: the least
      `n` such that `s[n..hi]` holds only strip characters, or `lo`. */
  function SkipBackward(s: string, lo: nat, hi: nat): (n: nat)
    requires lo <= hi <= |s|
    ensures lo <= n <= hi
    ensures forall k :: n <= k < hi ==> IsStripChar(s[k])
    ensures n == lo || !IsStripChar(s[n - 1])
    decreases hi - lo
  {
    if hi == lo || !IsStripChar(s[hi - 1]) then hi else SkipBackward(s, lo, hi - 1)
  }

  /** Number of strip characters at the front of `s`. */
  function LeadingStrip(s: string): (n: nat)
    ensures n <= |s|
  {
    SkipForward(s, 0)
  }

  /** Surrounding a string with strip-only runs adds none of the characters
      `strip` keeps. */
  lemma PaddingCount(a: string, m: string, b: string)
    requires AllStrip(a) && AllStrip(b)
    ensures forall x :: !IsStripChar(x) ==> multiset(a + m + b)[x] == multiset(m)[x]
  {
    assert multiset(a + m + b) == multiset(a) + multiset(m) + multiset(b);
    forall x | !IsStripChar(x)
      ensures multiset(a + m + b)[x] == multiset(m)[x]
    {
      assert x !in a && x !in b;
    }
  }

  /** A slice with only strip characters outside it keeps every character
      `strip` keeps, in order. */
  lemma PaddedSlice(s: string, i: nat, k: nat)
    requires i <= k <= |s| && AllStrip(s[..i]) && AllStrip(s[k..])
    ensures forall x :: !IsStripChar(x) ==> multiset(s[i..k])[x] == multiset(s)[x]
    ensures IsSubsequence(s[i..k], s)
  {
    assert s == s[..i] + s[i..k] + s[k..];
    PaddingCount(s[..i], s[i..k], s[k..]);
    SliceIsSubsequence(s, i, k);
  }

  /** A slice that starts and ends on characters `strip` keeps is stripped. */
  lemma SliceStripped(s: string, i: nat, k: nat)
    requires i <= k <= |s|
    requires i == |s| || !IsStripChar(s[i])
    requires k == i || !IsStripChar(s[k - 1])
    ensures IsStripped(s[i..k])
  {
    if i < k {
      assert s[i..k][0] == s[i];
      assert s[i..k][k - i - 1] == s[k - 1];
    }
  }

  /** Ruby's `String#strip`: the result is the infix of `s` left once the
      maximal runs of strip characters at both ends are cut off. */
  function Strip(s: string): (r: string)
    ensures IsStripped(r)
    ensures |r| + LeadingStrip(s) <= |s|
    ensures r == s[LeadingStrip(s)..LeadingStrip(s) + |r|]
    ensures AllStrip(s[..LeadingStrip(s)]) && AllStrip(s[LeadingStrip(s) + |r|..])
    ensures forall x :: !IsStripChar(x) ==> multiset(r)[x] == multiset(s)[x]
    ensures IsSubsequence(r, s)
  {
    var i := SkipForward(s, 0);
    var k := SkipBackward(s, i, |s|);
    assert i == LeadingStrip(s);
    assert AllStrip(s[..i]) by {
      forall m | 0 <= m < i ensures IsStripChar(s[..i][m]) {
        assert s[..i][m] == s[m];
      }
    }
    assert AllStrip(s[k..]) by {
      forall m | 0 <= m < |s| - k ensures IsStripChar(s[k..][m]) {
        assert s[k..][m] == s[k + m];
      }
    }
    PaddedSlice(s, i, k);
    SliceStripped(s, i, k);
    s[i..k]
  }

  /** `Strip` is pinned down by its contract: whatever sits between two
      strip-only runs and has no strip character at its ends is the result. */
  lemma StripUnique(a: string, m: string, b: string)
    requires AllStrip(a) && AllStrip(b) && IsStripped(m)
    ensures Strip(a + m + b) == m
  {
    var s := a + m + b;
    var i := SkipForward(s, 0);
    if |m| == 0 {
      assert AllStrip(s);
      assert i == |s|;
    } else {
      assert s[|a|] == m[0];
      assert i == |a|;
      var k := SkipBackward(s, i, |s|);
      assert s[|a| + |m| - 1] == m[|m| - 1];
      assert k == |a| + |m|;
      assert s[i..k] == m;
    }
  }

  /** Stripping twice is stripping once. */
  lemma StripIdempotent(s: string)
    ensures Strip(Strip(s)) == Strip(s)
  {
    var m := Strip(s);
    assert [] + m + [] == m;
    StripUnique([], m, []);
  }
}
