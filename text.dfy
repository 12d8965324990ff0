/**
 * Character classes and plain searches that the two entry patterns of
 * sync_strings.py are built from.
 */
module Text {

  /** The characters Python's `\s` matches in a `str` pattern: those for which `str.isspace()` holds. */
  predicate IsSpace(c: char) {
    var n := c as int;
    (0x09 <= n <= 0x0D) || (0x1C <= n <= 0x20) || n == 0x85 || n == 0xA0 || n == 0x1680
    || (0x2000 <= n <= 0x200A) || n == 0x2028 || n == 0x2029 || n == 0x202F || n == 0x205F
    || n == 0x3000
  }

  /** No character of `s[i..j]` is `c`. */
  predicate NoChar(s: string, c: char, i: nat, j: nat)
    requires j <= |s|
  {
    forall k :: i <= k < j ==> s[k] != c
  }

  /** `pat` occurs in `s` starting at index `k`. */
  predicate OccursAt(s: string, pat: string, k: nat) {
    k + |pat| <= |s| && s[k..k + |pat|] == pat
  }

  /** The first index at or after `i` holding `c`, or `|s|` when there is none. */
  function IndexOf(s: string, c: char, i: nat): (r: nat)
    requires i <= |s|
    ensures i <= r <= |s|
    ensures NoChar(s, c, i, r)
    ensures r < |s| ==> s[r] == c
    decreases |s| - i
  {
    if i == |s| || s[i] == c then i else IndexOf(s, c, i + 1)
  }

  /** The first index at or after `i` where `pat` occurs, or `|s|` when there is none. */
  function Find(s: string, pat: string, i: nat): (r: nat)
    requires i <= |s|
    requires pat != []
    ensures i <= r <= |s|
    ensures forall k :: i <= k < r ==> !OccursAt(s, pat, k)
    ensures r < |s| ==> OccursAt(s, pat, r)
    decreases |s| - i
  {
    if i == |s| || OccursAt(s, pat, i) then i else Find(s, pat, i + 1)
  }

  /** A prefix followed by the next slice is the longer prefix. */
  lemma PrefixJoin(s: string, i: nat, j: nat)
    requires i <= j <= |s|
    ensures s[..i] + s[i..j] == s[..j]
  {
  }

  /** The three parts of a concatenation are its slices. */
  lemma SliceThree(a: string, b: string, c: string)
    ensures (a + b + c)[..|a|] == a
    ensures (a + b + c)[|a|..|a| + |b|] == b
    ensures (a + b + c)[|a| + |b|..] == c
  {
  }

  /** A character that differs from the pattern's rules out an occurrence there. */
  lemma NotOccursAt(s: string, pat: string, k: nat, i: nat)
    requires i < |pat| && k + i < |s| && s[k + i] != pat[i]
    ensures !OccursAt(s, pat, k)
  {
    if k + |pat| <= |s| {
      assert s[k..k + |pat|][i] != pat[i];
    }
  }

  /** A slice within the left operand of a concatenation. */
  lemma SliceLeft(a: string, b: string, i: nat, j: nat)
    requires i <= j <= |a|
    ensures (a + b)[i..j] == a[i..j]
  {
  }

  /** Moving the outer parts of a concatenation onto its middle piece. */
  lemma Regroup<T>(a: seq<T>, b: seq<T>, c: seq<T>, d: seq<T>, e: seq<T>)
    ensures a + (b + c + d) + e == (a + b) + c + (d + e)
  {
  }

  /** Concatenation is associative. */
  lemma AppendAssoc<T>(a: seq<T>, b: seq<T>, c: seq<T>)
    ensures a + (b + c) == (a + b) + c
  {
  }
}
