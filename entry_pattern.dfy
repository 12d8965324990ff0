/**
 * The string-entry pattern of sync_strings.py, matched by hand:
 *
 *   `<string\s+[^>]*name="([^"]+)"[^>]*>(.*?)</string>`
 *
 * used with DOTALL by the extractor (line 21) and, split into five groups and
 * without DOTALL, by the line rewriter (line 51).  The two differ only in
 * whether `.` may match a newline, which is the `dotAll` parameter here.
 *
 * `IsEntry` is the set of spans the pattern can match; `IsMatchAt` picks the
 * one Python's backtracking engine returns at a position (the greedy `[^>]*`
 * makes the last viable `name="` win, the lazy `.*?` stops at the first
 * `</string>`); `IsSearchResult` adds that `search`/`finditer` take the
 * leftmost position.  The matcher `Search` is proved against these.
 */
module EntryPattern {
  import opened Wrappers
  import opened Text

  const OpenTag := "<string"
  const NameAttr := "name=\""
  const CloseTag := "</string>"

  /**
   * The positions of one match: `<string` at `start`, `name="` at `attr`,
   * the name's closing quote at `nameEnd`, the tag's `>` at `tagEnd` and
   * `</string>` at `close`.
   */
  datatype Match = Match(start: nat, attr: nat, nameEnd: nat, tagEnd: nat, close: nat) {
    /** The index just past the match. */
    function End(): nat {
      close + |CloseTag|
    }
  }

  /** The parts of `m` are in order and end within a text of length `n`. */
  predicate Ordered(m: Match, n: nat) {
    m.start < m.attr + |NameAttr| < m.nameEnd < m.tagEnd < m.close && m.End() <= n
  }

  /** `<string\s+[^>]*name="` matches `s[p..q + 6]`. */
  predicate HeadAt(s: string, p: nat, q: nat) {
    && p + |OpenTag| < q
    && OccursAt(s, OpenTag, p)
    && OccursAt(s, NameAttr, q)
    && IsSpace(s[p + |OpenTag|])
    && NoChar(s, '>', p + |OpenTag|, q)
  }

  /** `([^"]+)"[^>]*>(.*?)</string>` matches from `m.attr + 6` to `m.End()`. */
  predicate TailAt(s: string, dotAll: bool, m: Match) {
    && m.attr + |NameAttr| < m.nameEnd < m.tagEnd < m.close
    && OccursAt(s, CloseTag, m.close)
    && NoChar(s, '"', m.attr + |NameAttr|, m.nameEnd) && s[m.nameEnd] == '"'
    && NoChar(s, '>', m.nameEnd + 1, m.tagEnd) && s[m.tagEnd] == '>'
    && (dotAll || NoChar(s, '\n', m.tagEnd + 1, m.close))
  }

  /** The pattern can match `s[m.start..m.End()]` with its parts at the positions of `m`. */
  predicate IsEntry(s: string, dotAll: bool, m: Match) {
    HeadAt(s, m.start, m.attr) && TailAt(s, dotAll, m)
  }

  /** No `</string>` starts inside the content: the lazy `.*?` stopped at the first one. */
  predicate Shortest(s: string, m: Match) {
    forall k :: m.tagEnd < k < m.close ==> !OccursAt(s, CloseTag, k)
  }

  /** `m` is the match the engine returns when it tries the pattern at `m.start`. */
  ghost predicate IsMatchAt(s: string, dotAll: bool, m: Match) {
    && IsEntry(s, dotAll, m)
    && (forall m': Match :: m'.start == m.start && m.attr < m'.attr ==> !IsEntry(s, dotAll, m'))
    && Shortest(s, m)
  }

  /** `m` is what a search of `s` from index `from` returns: the match at the leftmost position. */
  ghost predicate IsSearchResult(s: string, dotAll: bool, from: nat, m: Match) {
    && from <= m.start
    && IsMatchAt(s, dotAll, m)
    && (forall m': Match :: from <= m'.start < m.start ==> !IsEntry(s, dotAll, m'))
  }

  /** The pattern matches nowhere in `s` at or after `from`. */
  ghost predicate NoEntryFrom(s: string, dotAll: bool, from: nat) {
    forall m: Match :: from <= m.start ==> !IsEntry(s, dotAll, m)
  }

  /**
   * With `name="` at `q` (and the opening tag at `p`), the rest of the pattern:
   * the name runs to the first `"`, the tag to the first `>` after it, the
   * content to the first `</string>` after that.
   */
  function TagRest(s: string, dotAll: bool, p: nat, q: nat): (r: Option<Match>)
    requires q + |NameAttr| <= |s|
    ensures r.Some? ==> r.value.start == p && r.value.attr == q
    ensures r.Some? ==> TailAt(s, dotAll, r.value) && Shortest(s, r.value)
    ensures r.None? ==> forall m: Match :: m.attr == q ==> !TailAt(s, dotAll, m)
  {
    var nameEnd := IndexOf(s, '"', q + |NameAttr|);
    if nameEnd == q + |NameAttr| || nameEnd == |s| then None
    else
      var tagEnd := IndexOf(s, '>', nameEnd + 1);
      if tagEnd == |s| then None
      else
        var close := Find(s, CloseTag, tagEnd + 1);
        if close == |s| || (!dotAll && IndexOf(s, '\n', tagEnd + 1) < close) then None
        else Some(Match(p, q, nameEnd, tagEnd, close))
  }

  /** No match with its tag at `p` uses a position `q` at which `name="` or the rest fails. */
  lemma NoEntryAtAttr(s: string, dotAll: bool, p: nat, q: nat)
    requires !OccursAt(s, NameAttr, q) || TagRest(s, dotAll, p, q).None?
    ensures forall m: Match :: m.start == p && m.attr == q ==> !IsEntry(s, dotAll, m)
  {
  }

  /**
   * Tries the positions of `name="` from `q` down, as the greedy `[^>]*`
   * gives back one character at a time.
   */
  function TryAttr(s: string, dotAll: bool, p: nat, q: nat): (r: Option<Match>)
    requires OccursAt(s, OpenTag, p) && p + |OpenTag| < |s| && IsSpace(s[p + |OpenTag|])
    requires q <= |s| && NoChar(s, '>', p + |OpenTag|, q)
    ensures r.Some? ==> r.value.start == p && r.value.attr <= q && IsEntry(s, dotAll, r.value)
    ensures r.Some? ==> Shortest(s, r.value)
    ensures r.Some? ==> forall m: Match :: m.start == p && r.value.attr < m.attr <= q ==> !IsEntry(s, dotAll, m)
    ensures r.None? ==> forall m: Match :: m.start == p && m.attr <= q ==> !IsEntry(s, dotAll, m)
    decreases q
  {
    if q <= p + |OpenTag| then None
    else if OccursAt(s, NameAttr, q) && TagRest(s, dotAll, p, q).Some? then TagRest(s, dotAll, p, q)
    else
      NoEntryAtAttr(s, dotAll, p, q);
      TryAttr(s, dotAll, p, q - 1)
  }

  /** The match the engine returns when it tries the pattern at `p`, if any. */
  function MatchAt(s: string, dotAll: bool, p: nat): (r: Option<Match>)
    ensures r.Some? ==> r.value.start == p && IsMatchAt(s, dotAll, r.value)
    ensures r.None? ==> forall m: Match :: m.start == p ==> !IsEntry(s, dotAll, m)
  {
    if !OccursAt(s, OpenTag, p) || p + |OpenTag| == |s| || !IsSpace(s[p + |OpenTag|]) then None
    else TryAttr(s, dotAll, p, IndexOf(s, '>', p + |OpenTag|))
  }

  /** `pattern.search(s, from)`: the leftmost match at or after `from`. */
  function Search(s: string, dotAll: bool, from: nat): (r: Option<Match>)
    requires from <= |s|
    ensures r.Some? ==> IsSearchResult(s, dotAll, from, r.value)
    ensures r.None? ==> NoEntryFrom(s, dotAll, from)
    decreases |s| - from
  {
    if from == |s| then None
    else
      match MatchAt(s, dotAll, from)
      case Some(m) => Some(m)
      case None => Search(s, dotAll, from + 1)
  }

  /** The search result is unique: the three rules leave the engine no choice. */
  lemma SearchResultUnique(s: string, dotAll: bool, from: nat, m1: Match, m2: Match)
    requires IsSearchResult(s, dotAll, from, m1) && IsSearchResult(s, dotAll, from, m2)
    ensures m1 == m2
  {
  }
}
