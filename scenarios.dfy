/**
 * The ordinary entry line of a strings.xml file,
 * `<indent><string name="KEY">CONTENT</string><rest>`, and what the
 * synchronization does with it.
 */
module Scenarios {
  import opened Wrappers
  import opened Text
  import opened EntryPattern
  import opened Extractor
  import opened Reconciler

  /** `<string name="`, the tag up to the key in its usual spelling. */
  const TagOpen := OpenTag + " " + NameAttr
  /** `">`, the tag after the key. */
  const TagClose := "\">"

  /** An entry line in the plain shape. */
  function PlainLine(indent: string, key: string, content: string, rest: string): string {
    indent + TagOpen + key + TagClose + content + CloseTag + rest
  }

  /** Text around a plain line joins its indentation and its rest. */
  lemma PlainLineShift(before: string, indent: string, key: string, content: string, rest: string, after: string)
    ensures before + PlainLine(indent, key, content, rest) + after
            == PlainLine(before + indent, key, content, rest + after)
  {
    var element := TagOpen + key + TagClose + content + CloseTag;
    assert PlainLine(indent, key, content, rest) == indent + element + rest;
    assert PlainLine(before + indent, key, content, rest + after) == (before + indent) + element + (rest + after);
    Regroup(before, indent, element, rest, after);
  }

  /** A key that holds no character of the tag syntax. */
  predicate PlainKey(key: string) {
    ValidName(key) && '>' !in key && '=' !in key
  }

  /** Content on one line that holds no closing tag. */
  ghost predicate OneLineContent(content: string) {
    '\n' !in content && !HasCloseTag(content)
  }

  /** Where the pattern matches a plain line. */
  function PlainMatch(indent: string, key: string, content: string): Match {
    var p := |indent|;
    var ne := p + 14 + |key|;
    Match(p, p + 8, ne, ne + 1, ne + 2 + |content|)
  }

  /** The content of a plain line lies between the tag's `>` and `</string>`. */
  lemma PlainContent(indent: string, key: string, content: string, rest: string)
    ensures var s, m := PlainLine(indent, key, content, rest), PlainMatch(indent, key, content);
      && m.close <= |s| && s[m.tagEnd + 1..m.close] == content
  {
    var s := PlainLine(indent, key, content, rest);
    var before := indent + TagOpen + key + TagClose;
    assert s == before + content + (CloseTag + rest);
  }

  /** The tag of a plain line, up to `name="`, is what the pattern's head asks for. */
  lemma PlainHead(indent: string, key: string, content: string, rest: string)
    ensures HeadAt(PlainLine(indent, key, content, rest), |indent|, |indent| + 8)
  {
    var s := PlainLine(indent, key, content, rest);
    var p := |indent|;
    assert p + 14 <= |s| && s[p..p + 14] == TagOpen by {
      PlainSlices(indent, key, content, rest);
    }
    var t := s[p..p + 14];
    assert s[p..p + 7] == t[..7] == OpenTag;
    assert s[p + 7] == t[7] == ' ';
    assert s[p + 8..p + 14] == t[8..] == NameAttr;
  }

  /** The rest of a plain line, from the key on, is what the pattern's tail asks for. */
  lemma PlainTail(indent: string, key: string, content: string, rest: string, dotAll: bool)
    requires ValidName(key) && '\n' !in content
    ensures TailAt(PlainLine(indent, key, content, rest), dotAll, PlainMatch(indent, key, content))
  {
    var s := PlainLine(indent, key, content, rest);
    var m := PlainMatch(indent, key, content);
    var k0 := m.attr + 6;
    assert m.End() <= |s| && s[k0..m.nameEnd] == key && s[m.nameEnd..m.tagEnd + 1] == TagClose
        && s[m.close..m.End()] == CloseTag by {
      PlainSlices(indent, key, content, rest);
    }
    assert s[m.nameEnd] == TagClose[0] && s[m.tagEnd] == TagClose[1];
    forall k | k0 <= k < m.nameEnd ensures s[k] != '"' {
      assert s[k] == key[k - k0];
    }
    assert s[m.tagEnd + 1..m.close] == content by {
      PlainContent(indent, key, content, rest);
    }
    forall k | m.tagEnd + 1 <= k < m.close ensures s[k] != '\n' {
      assert s[k] == content[k - (m.tagEnd + 1)];
    }
  }

  /** The pattern can match a plain line at the plain positions. */
  lemma PlainEntry(indent: string, key: string, content: string, rest: string, dotAll: bool)
    requires PlainKey(key) && OneLineContent(content)
    ensures IsEntry(PlainLine(indent, key, content, rest), dotAll, PlainMatch(indent, key, content))
  {
    PlainHead(indent, key, content, rest);
    PlainTail(indent, key, content, rest, dotAll);
  }

  /** No match starts in a stretch of the indentation that holds no '<'. */
  lemma PlainLeftmost(
    indent: string, key: string, content: string, rest: string, dotAll: bool, from: nat, m': Match)
    requires from <= m'.start < |indent| && '<' !in indent[from..]
    ensures !IsEntry(PlainLine(indent, key, content, rest), dotAll, m')
  {
    var s := PlainLine(indent, key, content, rest);
    assert s[m'.start] == indent[from..][m'.start - from] by {
      PlainSlices(indent, key, content, rest);
      assert s[..|indent|][m'.start] == s[m'.start];
    }
    NotOccursAt(s, OpenTag, m'.start, 0);
  }

  /**
   * In a tag `name="KEY">` whose key holds no '=', no `name="` starts after
   * the one at `q` and before the tag's `>`.
   */
  lemma SingleNameAttr(s: string, p: nat, q: nat, key: string, a: nat)
    requires p + 7 <= q < a && q + 8 + |key| <= |s| && '=' !in key
    requires s[q + 1] == 'a' && s[q + 6..q + 6 + |key|] == key
    requires s[q + 6 + |key|] == '"' && s[q + 7 + |key|] == '>'
    ensures !HeadAt(s, p, a)
  {
    var ne, gt := q + 6 + |key|, q + 7 + |key|;
    if gt < a {
      assert s[gt] == '>';
    } else if a + 4 < q + 6 {
      NotOccursAt(s, NameAttr, a, 0);
    } else if a + 4 < ne {
      assert s[a + 4] == key[a + 4 - (q + 6)];
      assert key[a + 4 - (q + 6)] in key;
      NotOccursAt(s, NameAttr, a, 4);
    } else if a + 4 <= gt {
      NotOccursAt(s, NameAttr, a, 4);
    } else {
      NotOccursAt(s, NameAttr, a, gt - a);
    }
  }

  /** No `name="` of a plain line's tag lies after the first one: the key holds no '='. */
  lemma PlainGreedy(indent: string, key: string, content: string, rest: string, dotAll: bool, m': Match)
    requires PlainKey(key)
    requires m'.start == |indent| && PlainMatch(indent, key, content).attr < m'.attr
    ensures !IsEntry(PlainLine(indent, key, content, rest), dotAll, m')
  {
    var s := PlainLine(indent, key, content, rest);
    var m := PlainMatch(indent, key, content);
    var p, q, ne, gt := m.start, m.attr, m.nameEnd, m.tagEnd;
    assert gt < |s| && s[q + 1] == 'a' && s[ne] == '"' && s[gt] == '>' && s[q + 6..ne] == key by {
      PlainSlices(indent, key, content, rest);
      assert s[p..p + 14][9] == s[q + 1];
      assert s[ne..gt + 1][0] == s[ne] && s[ne..gt + 1][1] == s[gt];
    }
    SingleNameAttr(s, p, q, key, m'.attr);
  }

  /**
   * The content of a plain line holds no `</string>`, and none can straddle
   * its end, since the only '<' of the closing tag is its first character:
   * the lazy content stops at the line's own closing tag.
   */
  lemma PlainLazy(indent: string, key: string, content: string, rest: string)
    requires OneLineContent(content)
    ensures Shortest(PlainLine(indent, key, content, rest), PlainMatch(indent, key, content))
  {
    var s := PlainLine(indent, key, content, rest);
    var m := PlainMatch(indent, key, content);
    var c := m.tagEnd + 1;
    assert m.close < |s| && s[m.close] == '<' by {
      PlainSlices(indent, key, content, rest);
      assert s[m.close..m.End()][0] == s[m.close];
    }
    assert s[c..m.close] == content by {
      PlainContent(indent, key, content, rest);
    }
    forall k | m.tagEnd < k < m.close ensures !OccursAt(s, CloseTag, k) {
      if k + 9 <= m.close {
        assert s[k..k + 9] == content[k - c..k - c + 9];
        assert !OccursAt(content, CloseTag, k - c);
      } else {
        NotOccursAt(s, CloseTag, k, m.close - k);
      }
    }
  }

  /**
   * Searching from a point after which the indentation holds no '<', the
   * leftmost, greedy, lazy match is the plain one.
   */
  lemma PlainLineMatch(indent: string, key: string, content: string, rest: string, dotAll: bool, from: nat)
    requires PlainKey(key) && OneLineContent(content)
    requires from <= |indent| && '<' !in indent[from..]
    ensures IsSearchResult(PlainLine(indent, key, content, rest), dotAll, from, PlainMatch(indent, key, content))
  {
    var s := PlainLine(indent, key, content, rest);
    var m := PlainMatch(indent, key, content);
    PlainEntry(indent, key, content, rest, dotAll);
    PlainLazy(indent, key, content, rest);
    forall m': Match | from <= m'.start < m.start ensures !IsEntry(s, dotAll, m') {
      PlainLeftmost(indent, key, content, rest, dotAll, from, m');
    }
    forall m': Match | m'.start == m.start && m.attr < m'.attr ensures !IsEntry(s, dotAll, m') {
      PlainGreedy(indent, key, content, rest, dotAll, m');
    }
  }

  /** The slices of a plain line at the plain match's positions are its parts. */
  lemma PlainSlices(indent: string, key: string, content: string, rest: string)
    ensures var s, m := PlainLine(indent, key, content, rest), PlainMatch(indent, key, content);
      && m.End() <= |s| && s[..m.start] == indent && s[m.start..m.attr + 6] == TagOpen
      && s[m.attr + 6..m.nameEnd] == key && s[m.nameEnd..m.tagEnd + 1] == TagClose
      && s[m.close..m.End()] == CloseTag && s[m.End()..] == rest
  {
    var s := PlainLine(indent, key, content, rest);
    var m := PlainMatch(indent, key, content);
    var p1 := indent + TagOpen;
    var p2 := p1 + key;
    var p3 := p2 + TagClose;
    var p4 := p3 + content;
    var p5 := p4 + CloseTag;
    assert |TagOpen| == 14 && s == p5 + rest;
    assert s[..m.start] == indent && s[m.start..m.attr + 6] == TagOpen by {
      SliceLeft(p5, rest, 0, |p1|);
      SliceLeft(p4, CloseTag, 0, |p1|);
      SliceLeft(p3, content, 0, |p1|);
      SliceLeft(p2, TagClose, 0, |p1|);
      SliceLeft(p1, key, 0, |p1|);
      assert p1[..m.start] == indent;
    }
    assert s[m.attr + 6..m.nameEnd] == key by {
      SliceLeft(p5, rest, |p1|, |p2|);
      SliceLeft(p4, CloseTag, |p1|, |p2|);
      SliceLeft(p3, content, |p1|, |p2|);
      SliceLeft(p2, TagClose, |p1|, |p2|);
    }
    assert s[m.nameEnd..m.tagEnd + 1] == TagClose by {
      SliceLeft(p5, rest, |p2|, |p3|);
      SliceLeft(p4, CloseTag, |p2|, |p3|);
      SliceLeft(p3, content, |p2|, |p3|);
    }
    assert s[m.close..m.End()] == CloseTag && s[m.End()..] == rest by {
      SliceLeft(p5, rest, |p4|, |p5|);
    }
  }

  /** The groups of the plain match are the parts the plain line was built from. */
  lemma PlainGroups(indent: string, key: string, content: string, rest: string)
    requires key != []
    ensures Groups(PlainLine(indent, key, content, rest), PlainMatch(indent, key, content))
            == LineSplit(indent, TagOpen, key, TagClose, content, CloseTag, rest)
  {
    PlainSlices(indent, key, content, rest);
    PlainContent(indent, key, content, rest);
  }

  /** A plain line splits into exactly its parts. */
  lemma PlainLineSplit(indent: string, key: string, content: string, rest: string)
    requires '<' !in indent && PlainKey(key) && OneLineContent(content)
    ensures SplitLine(PlainLine(indent, key, content, rest))
            == Some(LineSplit(indent, TagOpen, key, TagClose, content, CloseTag, rest))
  {
    var s := PlainLine(indent, key, content, rest);
    var m := PlainMatch(indent, key, content);
    assert indent[0..] == indent;
    PlainLineMatch(indent, key, content, rest, false, 0);
    SplitLineIsSearch(s);
    var m' :| IsSearchResult(s, false, 0, m') && SplitLine(s).value == Groups(s, m');
    SearchResultUnique(s, false, 0, m, m');
    PlainGroups(indent, key, content, rest);
  }

  /**
   * Against a target without the key, the plain line gets the English content
   * behind the pending marker; everything else on the line stays.
   */
  lemma PlainLinePending(
    indent: string, key: string, content: string, rest: string, translations: map<string, string>)
    requires '<' !in indent && PlainKey(key) && OneLineContent(content) && key !in translations
    ensures RewriteLine(PlainLine(indent, key, content, rest), translations)
            == PlainLine(indent, key, PendingMarker + content, rest)
  {
    PlainLineSplit(indent, key, content, rest);
  }

  /** Against a target that has the key, the plain line gets the target's translation. */
  lemma PlainLineTranslated(
    indent: string, key: string, content: string, rest: string, translations: map<string, string>)
    requires '<' !in indent && PlainKey(key) && OneLineContent(content) && key in translations
    ensures RewriteLine(PlainLine(indent, key, content, rest), translations)
            == PlainLine(indent, key, translations[key], rest)
  {
    PlainLineSplit(indent, key, content, rest);
  }
}
