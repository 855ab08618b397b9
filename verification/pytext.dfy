/** The few Python `str` operations the backend relies on: `isspace`, `strip`,
    `startswith`, `removeprefix`, slicing and the built-in ordering of strings. */
module PyText {

  /** Python's `str.isspace` for a single character: the ASCII controls
      TAB..CR, the four information separators, SPACE, NEL, NO-BREAK SPACE and
      the Unicode space separators, line and paragraph separators. */
  predicate IsSpace(c: char) {
    || c == ' '
    || ('\t' <= c <= '\r')
    || ('\U{1c}' <= c <= '\U{1f}')
    || c == '\U{85}' || c == '\U{a0}' || c == '\U{1680}'
    || ('\U{2000}' <= c <= '\U{200a}')
    || c == '\U{2028}' || c == '\U{2029}' || c == '\U{202f}' || c == '\U{205f}' || c == '\U{3000}'
  }

  predicate AllSpace(s: string) {
    forall i :: 0 <= i < |s| ==> IsSpace(s[i])
  }

  /** First index at or after `i` that does not hold whitespace (or |s|). */
  function SkipSpace(s: string, i: nat): (k: nat)
    requires i <= |s|
    ensures i <= k <= |s|
    ensures forall j :: i <= j < k ==> IsSpace(s[j])
    ensures k < |s| ==> !IsSpace(s[k])
    decreases |s| - i
  {
    if i < |s| && IsSpace(s[i]) then SkipSpace(s, i + 1) else i
  }

  /** Largest `k <= j` such that s[k..j] is all whitespace. */
  function SkipSpaceBack(s: string, j: nat): (k: nat)
    requires j <= |s|
    ensures k <= j
    ensures forall i :: k <= i < j ==> IsSpace(s[i])
    ensures 0 < k ==> !IsSpace(s[k - 1])
  {
    if 0 < j && IsSpace(s[j - 1]) then SkipSpaceBack(s, j - 1) else j
  }

  /** Offset of the first character `strip` keeps. */
  function StripStart(s: string): nat
  {
    SkipSpace(s, 0)
  }

  /** Python's `str.strip()` with no argument: removes leading and trailing
      whitespace. The result is the slice s[StripStart(s)..] of its own length,
      every removed character is whitespace, and the kept text neither starts
      nor ends with whitespace. */
  function Strip(s: string): (r: string)
    ensures |r| <= |s|
    ensures StripStart(s) + |r| <= |s| && r == s[StripStart(s)..StripStart(s) + |r|]
    ensures forall i :: 0 <= i < StripStart(s) ==> IsSpace(s[i])
    ensures forall i :: StripStart(s) + |r| <= i < |s| ==> IsSpace(s[i])
    ensures r != [] ==> !IsSpace(r[0]) && !IsSpace(r[|r| - 1])
    ensures r == [] <==> AllSpace(s)
  {
    var lo := SkipSpace(s, 0);
    if lo == |s| then []
    else
      var hi := SkipSpaceBack(s, |s|);
      assert !IsSpace(s[lo]);
      s[lo..hi]
  }

  /** A string without surrounding whitespace is its own strip. */
  lemma StripUnchanged(s: string)
    requires s == [] || (!IsSpace(s[0]) && !IsSpace(s[|s| - 1]))
    ensures Strip(s) == s
  {
    if s != [] {
      assert !AllSpace(s);
    }
  }

  predicate StartsWith(s: string, prefix: string) {
    |prefix| <= |s| && s[..|prefix|] == prefix
  }

  /** Python's `str.removeprefix`. */
  function RemovePrefix(s: string, prefix: string): (r: string)
    ensures StartsWith(s, prefix) ==> s == prefix + r
    ensures !StartsWith(s, prefix) ==> r == s
  {
    if StartsWith(s, prefix) then s[|prefix|..] else s
  }

  /** How a slice bound `i` is normalised against a sequence of length n:
      negative bounds count from the end, then the bound is clamped to [0, n]. */
  function SliceBound(i: int, n: nat): (b: nat)
    ensures b <= n
    ensures 0 <= i <= n ==> b == i
    ensures i < 0 && 0 <= i + n ==> b == i + n
  {
    if i < 0 then (if i + n < 0 then 0 else i + n)
    else if i > n then n
    else i
  }

  /** Python's `s[i:j]` for arbitrary integers i and j. */
  function Slice(s: string, i: int, j: int): (r: string)
    ensures 0 <= i <= j <= |s| ==> r == s[i..j]
    ensures 0 <= j <= i ==> r == []
  {
    var lo := SliceBound(i, |s|);
    var hi := SliceBound(j, |s|);
    if lo < hi then s[lo..hi] else []
  }

  /** Python's `a <= b` on strings: lexicographic by code point. A prefix
      comes first, and otherwise the first differing code point decides. */
  predicate LexLe(a: string, b: string): (r: bool)
    ensures StartsWith(b, a) ==> r
    ensures |a| > 0 && |b| > 0 && a[0] != b[0] ==> (r <==> a[0] < b[0])
    ensures r && |a| > 0 ==> |b| > 0 && a[0] <= b[0]
    decreases |a|
  {
    if a == [] then true
    else if b == [] then false
    else if a[0] != b[0] then a[0] < b[0]
    else LexLe(a[1..], b[1..])
  }

  /** Position k is where `a` first goes below `b`: both agree before k and
      `a`'s code point at k is the smaller one. */
  predicate FirstLessAt(a: string, b: string, k: nat) {
    k < |a| && k < |b| && a[..k] == b[..k] && a[k] < b[k]
  }

  /** LexLe is exactly Python's ordering: `a` is a prefix of `b`, or at the
      first position where they differ `a` has the smaller code point. */
  lemma {:induction false} LexLeFirstDifference(a: string, b: string)
    ensures LexLe(a, b) <==> StartsWith(b, a) || exists k: nat :: FirstLessAt(a, b, k)
    decreases |a|
  {
    if a == [] {
      assert StartsWith(b, a);
    } else if b == [] {
      assert !StartsWith(b, a);
      assert forall k: nat :: !FirstLessAt(a, b, k);
    } else if a[0] != b[0] {
      assert !StartsWith(b, a) by {
        if |a| <= |b| { assert b[..|a|][0] != a[0]; }
      }
      if a[0] < b[0] {
        assert FirstLessAt(a, b, 0);
      } else {
        forall k: nat | 0 < k <= |a| && k <= |b|
          ensures a[..k] != b[..k]
        {
          assert a[..k][0] == a[0] && b[..k][0] == b[0];
        }
      }
    } else {
      LexLeFirstDifference(a[1..], b[1..]);
      assert StartsWith(b, a) <==> StartsWith(b[1..], a[1..]) by {
        if StartsWith(b, a) {
          assert b[1..][..|a| - 1] == b[..|a|][1..];
        }
        if StartsWith(b[1..], a[1..]) {
          assert b[..|a|] == [b[0]] + b[1..][..|a| - 1];
          assert a == [a[0]] + a[1..];
        }
      }
      forall k: nat | FirstLessAt(a[1..], b[1..], k)
        ensures FirstLessAt(a, b, k + 1)
      {
        assert a[..k + 1] == [a[0]] + a[1..][..k];
        assert b[..k + 1] == [b[0]] + b[1..][..k];
      }
      forall k: nat | FirstLessAt(a, b, k)
        ensures k > 0 && FirstLessAt(a[1..], b[1..], k - 1)
      {
        assert a[1..][..k - 1] == a[..k][1..];
        assert b[1..][..k - 1] == b[..k][1..];
      }
    }
  }

  /** Two strings each at most the other are equal. */
  lemma {:induction false} LexLeAntisymmetric(a: string, b: string)
    requires LexLe(a, b) && LexLe(b, a)
    ensures a == b
    decreases |a|
  {
    if a != [] {
      LexLeAntisymmetric(a[1..], b[1..]);
      assert a == [a[0]] + a[1..] && b == [b[0]] + b[1..];
    }
  }

  lemma {:induction false} LexLeTotal(a: string, b: string)
    ensures LexLe(a, b) || LexLe(b, a)
    decreases |a|
  {
    if a != [] && b != [] && a[0] == b[0] {
      LexLeTotal(a[1..], b[1..]);
    }
  }

  lemma {:induction false} LexLeTransitive(a: string, b: string, c: string)
    requires LexLe(a, b) && LexLe(b, c)
    ensures LexLe(a, c)
    decreases |a|
  {
    if a != [] && b != [] && c != [] && a[0] == b[0] && b[0] == c[0] {
      LexLeTransitive(a[1..], b[1..], c[1..]);
    }
  }
}
