/**
 * The rewrite loop of `sync_file`: each line of the English strings.xml is
 * searched with the five-group entry pattern (no DOTALL); a line without an
 * entry is copied, a line with one keeps everything but the entry's content,
 * which becomes the target's translation or, failing that, the English
 * content behind the pending marker.
 */
module Reconciler {
  import opened Wrappers
  import opened Text
  import opened EntryPattern
  import opened Extractor

  /** The marker put before English content that has no translation yet. */
  const PendingMarker := "TODO: "

  /**
   * A line split at its leftmost entry: the text before it, the five groups
   * `(<string\s+[^>]*name=")([^"]+)("[^>]*>)(.*?)(</string>)`, and the text after it.
   */
  datatype LineSplit = LineSplit(
    lineStart: string,
    prefixStart: string,
    key: string,
    prefixEnd: string,
    content: string,
    suffix: string,
    lineEnd: string)
  {
    /** The line reassembled with `newContent` in place of the entry's content. */
    function With(newContent: string): string {
      lineStart + prefixStart + key + prefixEnd + newContent + suffix + lineEnd
    }

    /** The length of everything before the content. */
    function ContentStart(): nat {
      |lineStart + prefixStart + key + prefixEnd|
    }
  }

  /** The groups of match `m` in `line`: each group lies at the match's positions. */
  function Groups(line: string, m: Match): (r: LineSplit)
    requires Ordered(m, |line|)
    ensures |r.lineStart| == m.start && |r.lineStart + r.prefixStart| == m.attr + |NameAttr|
    ensures r.ContentStart() == m.tagEnd + 1 && |r.content| == m.close - m.tagEnd - 1
    ensures |r.lineEnd| == |line| - m.End()
  {
    LineSplit(
      line[..m.start],
      line[m.start..m.attr + |NameAttr|],
      line[m.attr + |NameAttr|..m.nameEnd],
      line[m.nameEnd..m.tagEnd + 1],
      line[m.tagEnd + 1..m.close],
      line[m.close..m.End()],
      line[m.End()..])
  }

  /** The groups and the text around them make up the line again. */
  lemma JoinGroups(line: string, m: Match)
    requires Ordered(m, |line|)
    ensures Groups(line, m).With(Groups(line, m).content) == line
  {
    var a, b, c, d, e, f := m.start, m.attr + |NameAttr|, m.nameEnd, m.tagEnd + 1, m.close, m.End();
    var sp := Groups(line, m);
    PrefixJoin(line, a, b);
    assert sp.lineStart + sp.prefixStart == line[..b];
    PrefixJoin(line, b, c);
    assert sp.lineStart + sp.prefixStart + sp.key == line[..c];
    PrefixJoin(line, c, d);
    assert sp.lineStart + sp.prefixStart + sp.key + sp.prefixEnd == line[..d];
    PrefixJoin(line, d, e);
    assert sp.lineStart + sp.prefixStart + sp.key + sp.prefixEnd + sp.content == line[..e];
    PrefixJoin(line, e, f);
    assert sp.lineStart + sp.prefixStart + sp.key + sp.prefixEnd + sp.content + sp.suffix == line[..f];
    assert line[..f] + line[f..] == line;
  }

  /** `pattern.search(line)` on one English line, with `line[:match.start()]` and `line[match.end():]`. */
  function SplitLine(line: string): (r: Option<LineSplit>)
    ensures r.Some? ==> r.value.With(r.value.content) == line
    ensures r.Some? ==> ValidName(r.value.key) && r.value.suffix == CloseTag
    ensures r.Some? ==> '\n' !in r.value.content && !HasCloseTag(r.value.content)
  {
    match Search(line, false, 0)
    case None => None
    case Some(m) =>
      EntryOfWellFormed(line, false, m);
      assert Ordered(m, |line|);
      var sp := Groups(line, m);
      assert sp.content == EntryOf(line, m).content;
      JoinGroups(line, m);
      Some(sp)
  }

  /**
   * The split is that of the leftmost match Python's engine finds, and there
   * is none exactly when the pattern matches nowhere in the line.
   */
  lemma SplitLineIsSearch(line: string)
    ensures SplitLine(line).None? <==> NoEntryFrom(line, false, 0)
    ensures SplitLine(line).Some? ==>
              exists m :: IsSearchResult(line, false, 0, m) && SplitLine(line).value == Groups(line, m)
  {
    match Search(line, false, 0)
    case None =>
    case Some(m) =>
      assert IsEntry(line, false, m);
  }

  /** The content a matched line gets: the target's translation, else the marked English content. */
  function NewContent(key: string, englishContent: string, translations: map<string, string>): (r: string)
    ensures key in translations ==> r == translations[key]
    ensures key !in translations ==>
              |r| == |PendingMarker| + |englishContent| &&
              r[..|PendingMarker|] == PendingMarker && r[|PendingMarker|..] == englishContent
  {
    if key in translations then translations[key] else PendingMarker + englishContent
  }

  /**
   * The line the loop appends for one English line: a line without a match
   * is copied, a matched one is reassembled around its new content.
   */
  function RewriteLine(line: string, translations: map<string, string>): (r: string)
    ensures SplitLine(line).None? ==> r == line
  {
    match SplitLine(line)
    case None => line
    case Some(sp) => sp.With(NewContent(sp.key, sp.content, translations))
  }

  /** `rewrite` applied to every line, in order. */
  function MapLines(rewrite: string -> string, lines: seq<string>): (r: seq<string>)
    ensures |r| == |lines|
    ensures forall i :: 0 <= i < |lines| ==> r[i] == rewrite(lines[i])
  {
    if lines == [] then []
    else MapLines(rewrite, lines[..|lines| - 1]) + [rewrite(lines[|lines| - 1])]
  }

  /** The rewrite of one line against fixed translations. */
  function Rewriter(translations: map<string, string>): string -> string {
    line => RewriteLine(line, translations)
  }

  /** The new lines for the English lines: one per English line, in order, each rewritten. */
  function RewriteAll(englishLines: seq<string>, translations: map<string, string>): (newLines: seq<string>)
    ensures |newLines| == |englishLines|
    ensures forall i :: 0 <= i < |englishLines| ==> newLines[i] == RewriteLine(englishLines[i], translations)
  {
    MapLines(Rewriter(translations), englishLines)
  }

  /** The loop of `sync_file`, which appends the rewrite of each English line in turn. */
  method Reconcile(englishLines: seq<string>, translations: map<string, string>) returns (newLines: seq<string>)
    ensures newLines == RewriteAll(englishLines, translations)
  {
    newLines := [];
    for i := 0 to |englishLines|
      invariant newLines == MapLines(Rewriter(translations), englishLines[..i])
    {
      assert englishLines[..i + 1][..i] == englishLines[..i];
      var newLine := RewriteOne(englishLines[i], translations);
      newLines := newLines + [newLine];
    }
    assert englishLines[..|englishLines|] == englishLines;
  }

  /** The body of the loop of `sync_file` for one English line. */
  method RewriteOne(line: string, translations: map<string, string>) returns (newLine: string)
    ensures newLine == RewriteLine(line, translations)
  {
    var split := SplitLine(line);
    if split.Some? {
      var sp := split.value;
      if sp.key in translations {
        newLine := sp.With(translations[sp.key]);
      } else {
        newLine := sp.With(PendingMarker + sp.content);
      }
    } else {
      newLine := line;
    }
  }

  /** A line in which the pattern matches nowhere is copied unchanged. */
  lemma UnmatchedLineKept(line: string, translations: map<string, string>)
    requires NoEntryFrom(line, false, 0)
    ensures RewriteLine(line, translations) == line
  {
    SplitLineIsSearch(line);
  }

  /**
   * A matched line keeps every character outside the entry's content: the
   * rewrite replaces exactly `line[i..j]`, the English content, by the new content.
   */
  lemma {:induction false} OnlyContentReplaced(line: string, translations: map<string, string>)
    requires SplitLine(line).Some?
    ensures var sp := SplitLine(line).value;
      var i := sp.ContentStart();
      var j := i + |sp.content|;
      && j <= |line|
      && line[i..j] == sp.content
      && RewriteLine(line, translations)
         == line[..i] + NewContent(sp.key, sp.content, translations) + line[j..]
  {
    var sp := SplitLine(line).value;
    var newContent := NewContent(sp.key, sp.content, translations);
    assert RewriteLine(line, translations) == sp.With(newContent);
    WithReplacesContent(line, sp, newContent);
  }

  /** Reassembling with other content changes the content's span and nothing else. */
  lemma WithReplacesContent(line: string, sp: LineSplit, newContent: string)
    requires sp.With(sp.content) == line
    ensures var i := sp.ContentStart();
      var j := i + |sp.content|;
      && j <= |line|
      && line[i..j] == sp.content
      && sp.With(newContent) == line[..i] + newContent + line[j..]
  {
    var head := sp.lineStart + sp.prefixStart + sp.key + sp.prefixEnd;
    var tail := sp.suffix + sp.lineEnd;
    assert sp.With(newContent) == head + newContent + tail;
    assert sp.With(sp.content) == head + sp.content + tail;
    SliceThree(head, sp.content, tail);
  }

  /**
   * Re-running over a just-synchronized target: when the target now holds,
   * for the line's key, the content the previous run wrote, the line comes
   * out the same, so a pending marker is kept once and not added again.
   */
  lemma ResyncKeepsLine(line: string, before: map<string, string>, after: map<string, string>)
    requires SplitLine(line).Some?
    requires var sp := SplitLine(line).value;
      sp.key in after && after[sp.key] == NewContent(sp.key, sp.content, before)
    ensures RewriteLine(line, after) == RewriteLine(line, before)
  {
  }

  /**
   * A key that no English line carries has no influence on the output:
   * whatever the target holds for it, the rewritten lines are the same, so an
   * entry present only in the target is not carried over.
   */
  lemma {:induction false} TargetOnlyKeyDropped(
    englishLines: seq<string>, translations: map<string, string>, key: string, value: string)
    requires forall i :: 0 <= i < |englishLines| && SplitLine(englishLines[i]).Some? ==>
                           SplitLine(englishLines[i]).value.key != key
    ensures forall i :: 0 <= i < |englishLines| ==>
                          RewriteLine(englishLines[i], translations[key := value])
                          == RewriteLine(englishLines[i], translations - {key})
  {
    forall i | 0 <= i < |englishLines|
      ensures RewriteLine(englishLines[i], translations[key := value])
              == RewriteLine(englishLines[i], translations - {key})
    {
      match SplitLine(englishLines[i])
      case None =>
      case Some(sp) =>
        assert sp.key != key;
    }
  }
}
