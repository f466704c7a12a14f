/**
 The small part of `java.lang.String` that the principal-name decomposer relies on:
 a nullable reference, the `StringIndexOutOfBoundsException` that `substring` throws,
 `indexOf(String)` and the two `substring` overloads. Characters are Dafny `char`s.
 */
module JavaString {

  /** A Java reference that may be `null`. */
  datatype Option<+T> = None | Some(value: T)

  /** The normal return of a Java call, or the index exception `substring` throws. */
  datatype Outcome<+T> = Returns(value: T) | IndexOutOfBounds

  /** `pat` occurs in `s` starting at index `k`. */
  predicate OccursAt(s: string, pat: string, k: int)
  {
    0 <= k && k + |pat| <= |s| && s[k..k + |pat|] == pat
  }

  /** `pat` occurs somewhere in `s`. */
  predicate Contains(s: string, pat: string)
  {
    exists k :: 0 <= k <= |s| && OccursAt(s, pat, k)
  }

  /** `k` is the leftmost index at which `pat` occurs in `s`. */
  predicate FirstOccurrence(s: string, pat: string, k: int)
  {
    OccursAt(s, pat, k) && forall j :: 0 <= j < k ==> !OccursAt(s, pat, j)
  }

  /** The leftmost occurrence of `pat` in `s` at or after `k`, or -1. */
  function IndexOfFrom(s: string, pat: string, k: nat): (r: int)
    decreases |s| - k
    ensures r == -1 || (k <= r && OccursAt(s, pat, r))
    ensures r != -1 ==> forall j :: k <= j < r ==> !OccursAt(s, pat, j)
    ensures r == -1 ==> forall j :: k <= j ==> !OccursAt(s, pat, j)
  {
    if k + |pat| > |s| then -1
    else if s[k..k + |pat|] == pat then k
    else IndexOfFrom(s, pat, k + 1)
  }

  /** Java's `s.indexOf(pat)`: the first index of `pat` in `s`, or -1 when it does not
      occur. The empty pattern occurs at index 0 of every string, the empty one included. */
  function IndexOf(s: string, pat: string): (r: int)
    ensures r == -1 <==> !Contains(s, pat)
    ensures r != -1 ==> FirstOccurrence(s, pat, r)
    ensures r != -1 ==> 0 <= r <= |s| - |pat|
  {
    IndexOfFrom(s, pat, 0)
  }

  /** Java's `s.substring(begin, end)`: throws unless `0 <= begin <= end <= |s|`. */
  function Substring(s: string, begin: int, end: int): (r: Outcome<string>)
    ensures r.Returns? <==> 0 <= begin <= end <= |s|
    ensures r.Returns? ==> |r.value| == end - begin
    ensures r.Returns? ==> forall k :: 0 <= k < |r.value| ==> r.value[k] == s[begin + k]
  {
    if 0 <= begin <= end <= |s| then Returns(s[begin..end]) else IndexOutOfBounds
  }

  /** Java's `s.substring(begin)`: throws unless `0 <= begin <= |s|`. */
  function SubstringFrom(s: string, begin: int): (r: Outcome<string>)
    ensures r.Returns? <==> 0 <= begin <= |s|
    ensures r.Returns? ==> |r.value| == |s| - begin
    ensures r.Returns? ==> forall k :: 0 <= k < |r.value| ==> r.value[k] == s[begin + k]
  {
    if 0 <= begin <= |s| then Returns(s[begin..]) else IndexOutOfBounds
  }

  /** There is at most one leftmost occurrence. */
  lemma FirstOccurrenceUnique(s: string, pat: string, j: int, k: int)
    requires FirstOccurrence(s, pat, j) && FirstOccurrence(s, pat, k)
    ensures j == k
  {
  }

  /** `IndexOf` returns exactly the leftmost occurrence. */
  lemma IndexOfIsFirstOccurrence(s: string, pat: string, k: int)
    ensures FirstOccurrence(s, pat, k) <==> (k >= 0 && IndexOf(s, pat) == k)
  {
    if FirstOccurrence(s, pat, k) {
      assert Contains(s, pat);
      FirstOccurrenceUnique(s, pat, IndexOf(s, pat), k);
    }
  }

  /** An occurrence in a prefix of `s` is an occurrence in `s` that ends inside the prefix. */
  lemma OccursInPrefix(s: string, pat: string, n: int, k: int)
    requires 0 <= n <= |s|
    ensures OccursAt(s[..n], pat, k) <==> (OccursAt(s, pat, k) && k + |pat| <= n)
  {
    if 0 <= k && k + |pat| <= n {
      assert s[..n][k..k + |pat|] == s[k..k + |pat|];
    }
  }

  /** A one-character pattern occurs exactly where that character is. */
  lemma ContainsSingleChar(s: string, ch: char)
    ensures Contains(s, [ch]) <==> ch in s
  {
    if ch in s {
      var k :| 0 <= k < |s| && s[k] == ch;
      assert s[k..k + 1] == [ch];
      assert OccursAt(s, [ch], k);
    }
    if Contains(s, [ch]) {
      var k :| 0 <= k <= |s| && OccursAt(s, [ch], k);
      assert s[k..k + 1] == [ch];
      assert s[k] == ch;
    }
  }

  /** An occurrence inside the slice `s[a..b]` is an occurrence in `s`, shifted by `a`,
      that ends inside the slice. */
  lemma OccursInSlice(s: string, pat: string, a: int, b: int, j: int)
    requires 0 <= a <= b <= |s|
    ensures OccursAt(s[a..b], pat, j) <==> (0 <= j && a + j + |pat| <= b && OccursAt(s, pat, a + j))
  {
    if 0 <= j && a + j + |pat| <= b {
      var u, v := s[a..b][j..j + |pat|], s[a + j..a + j + |pat|];
      forall t | 0 <= t < |u|
        ensures u[t] == v[t]
      {
      }
      assert u == v;
    }
  }

  /** A one-character pattern occurs at `k` exactly when `s[k]` is that character. */
  lemma OccursAtSingleChar(s: string, ch: char, k: int)
    ensures OccursAt(s, [ch], k) <==> (0 <= k < |s| && s[k] == ch)
  {
    if 0 <= k < |s| {
      assert s[k..k + 1] == [s[k]];
    }
  }

  /** The leftmost occurrence of a one-character pattern is the leftmost index holding it. */
  lemma FirstOccurrenceOfChar(s: string, ch: char, k: int)
    ensures FirstOccurrence(s, [ch], k) <==>
            (0 <= k < |s| && s[k] == ch && forall j :: 0 <= j < k ==> s[j] != ch)
  {
    OccursAtSingleChar(s, ch, k);
    forall j | 0 <= j < k {
      OccursAtSingleChar(s, ch, j);
    }
  }

  /** A character that does not occur in `prefix` is first found right after it. */
  lemma FirstCharAfter(prefix: string, ch: char, rest: string)
    requires ch !in prefix
    ensures FirstOccurrence(prefix + [ch] + rest, [ch], |prefix|)
  {
    var s := prefix + [ch] + rest;
    assert forall j :: 0 <= j < |prefix| ==> s[j] == prefix[j];
    FirstOccurrenceOfChar(s, ch, |prefix|);
  }
}
