/**
 * Running the synchronization twice.  A strings.xml file is modelled here as
 * a sequence of lines, each either an entry in the plain shape or a line
 * that holds no `<string` at all (the XML header, `<resources>`, comments,
 * blank lines).  For such a file the second run, which reads back the file
 * the first run wrote, writes exactly the same lines again.
 */
module Resync {
  import opened Wrappers
  import opened Text
  import opened EntryPattern
  import opened Extractor
  import opened Reconciler
  import opened Driver
  import opened Scenarios

  /** One line of a strings.xml file, without its newline. */
  datatype SourceLine =
    | EntryLine(indent: string, key: string, content: string)
    | OtherLine(text: string)

  /** No `<string` starts anywhere in `t`. */
  predicate NoOpenTag(t: string) {
    forall p: nat :: p < |t| ==> !OccursAt(t, OpenTag, p)
  }

  /** The line is of one of the two shapes. */
  ghost predicate WellFormed(l: SourceLine) {
    match l
    case EntryLine(indent, key, content) => '<' !in indent && PlainKey(key) && OneLineContent(content)
    case OtherLine(text) => '\n' !in text && NoOpenTag(text)
  }

  /** The text of a line as `readlines` returns it, newline included. */
  function Render(l: SourceLine): string {
    match l
    case EntryLine(indent, key, content) => PlainLine(indent, key, content, "\n")
    case OtherLine(text) => text + "\n"
  }

  /** The lines of a file. */
  function RenderAll(ls: seq<SourceLine>): seq<string> {
    seq(|ls|, i requires 0 <= i < |ls| => Render(ls[i]))
  }

  /** The text of a file written with `writelines`. */
  function Join(lines: seq<string>): string {
    if lines == [] then "" else lines[0] + Join(lines[1..])
  }

  /** The entries of the file's entry lines, in order. */
  function Entries(ls: seq<SourceLine>): seq<Entry> {
    if ls == [] then []
    else (if ls[0].EntryLine? then [Entry(ls[0].key, ls[0].content)] else []) + Entries(ls[1..])
  }

  /** Every key is on at most one entry line. */
  predicate UniqueKeys(ls: seq<SourceLine>) {
    forall i, j :: 0 <= i < j < |ls| && ls[i].EntryLine? && ls[j].EntryLine? ==> ls[i].key != ls[j].key
  }

  /** The line the synchronization writes for `l` against `translations`. */
  function Synced(l: SourceLine, translations: map<string, string>): SourceLine {
    match l
    case EntryLine(indent, key, content) => EntryLine(indent, key, NewContent(key, content, translations))
    case OtherLine(_) => l
  }

  /** The scan resumes at the same match when no match starts in between. */
  lemma ScanSkip(s: string, f: nat, g: nat)
    requires f <= g <= |s|
    requires forall m: Match :: f <= m.start < g ==> !IsEntry(s, true, m)
    ensures Scan(s, f) == Scan(s, g)
  {
    var r1, r2 := Search(s, true, f), Search(s, true, g);
    if r1.Some? {
      assert IsSearchResult(s, true, g, r1.value);
      assert r2.Some?;
      SearchResultUnique(s, true, g, r1.value, r2.value);
    } else {
      assert NoEntryFrom(s, true, g);
    }
    assert NextMatch(s, f) == NextMatch(s, g);
  }

  /** No `<string` starts in a '<'-free stretch followed by a line that holds none. */
  lemma NoOpenTagBefore(a: string, text: string, rest: string, f: nat, p: nat)
    requires f <= p <= |a| + |text| && f <= |a| && '<' !in a[f..]
    requires '\n' !in text && NoOpenTag(text)
    ensures !OccursAt(a + text + "\n" + rest, OpenTag, p)
  {
    var s := a + text + "\n" + rest;
    var g := |a| + |text|;
    assert s[g] == '\n';
    if p < |a| {
      assert s[p] == a[f..][p - f];
      NotOccursAt(s, OpenTag, p, 0);
    } else if p + |OpenTag| <= g {
      assert s[p..p + |OpenTag|] == text[p - |a|..p - |a| + |OpenTag|];
      assert !OccursAt(text, OpenTag, p - |a|);
    } else {
      NotOccursAt(s, OpenTag, p, g - p);
    }
  }

  /** The lines after the first. */
  lemma RenderAllTail(ls: seq<SourceLine>)
    requires ls != []
    ensures Join(RenderAll(ls)) == Render(ls[0]) + Join(RenderAll(ls[1..]))
  {
    assert RenderAll(ls)[1..] == RenderAll(ls[1..]);
  }

  /** The entry of a plain entry line is its key and its content. */
  lemma PlainEntryOf(indent: string, key: string, content: string, rest: string)
    requires PlainKey(key) && OneLineContent(content)
    ensures TailAt(PlainLine(indent, key, content, rest), true, PlainMatch(indent, key, content))
    ensures EntryOf(PlainLine(indent, key, content, rest), PlainMatch(indent, key, content)) == Entry(key, content)
    ensures PlainMatch(indent, key, content).End() == |PlainLine(indent, key, content, rest)| - |rest|
    ensures PlainLine(indent, key, content, rest)[PlainMatch(indent, key, content).End()..] == rest
  {
    PlainTail(indent, key, content, rest, true);
    PlainGroups(indent, key, content, rest);
    PlainSlices(indent, key, content, rest);
  }

  /** Where an other-line starting at `o` ends, and that no match starts before its newline. */
  lemma OtherLineGap(s: string, ls: seq<SourceLine>, o: nat, f: nat) returns (g: nat)
    requires ls != [] && ls[0].OtherLine? && WellFormed(ls[0])
    requires o <= |s| && s[o..] == Join(RenderAll(ls))
    requires f <= o && NoChar(s, '<', f, o)
    ensures f <= g < |s| && s[g] == '\n' && s[g + 1..] == Join(RenderAll(ls[1..]))
    ensures forall m: Match :: f <= m.start < g ==> !IsEntry(s, true, m)
  {
    var text := ls[0].text;
    var tail := Join(RenderAll(ls[1..]));
    RenderAllTail(ls);
    var a := s[..o];
    g := o + |text|;
    assert s == a + text + "\n" + tail;
    assert forall k :: f <= k < |a| ==> a[k] == a[f..][k - f];
    forall m: Match | f <= m.start < g ensures !IsEntry(s, true, m) {
      NoOpenTagBefore(a, text, tail, f, m.start);
    }
  }

  /** An entry line starting at `o` makes `s` a plain line after `s[..o]`. */
  lemma EntryLineShape(s: string, ls: seq<SourceLine>, o: nat, f: nat)
    requires ls != [] && ls[0].EntryLine?
    requires o <= |s| && s[o..] == Join(RenderAll(ls))
    requires f <= o && NoChar(s, '<', f, o) && '<' !in ls[0].indent
    ensures var l := ls[0];
      && s == PlainLine(s[..o] + l.indent, l.key, l.content, "\n" + Join(RenderAll(ls[1..])))
      && f <= |s[..o] + l.indent| && '<' !in (s[..o] + l.indent)[f..]
  {
    var l := ls[0];
    var a := s[..o];
    var pre := a + l.indent;
    assert '<' !in pre[f..] by {
      forall i | 0 <= i < |pre[f..]| ensures pre[f..][i] != '<' {
        if f + i < |a| {
          assert pre[f + i] == s[f + i];
        } else {
          assert pre[f + i] == l.indent[f + i - |a|];
        }
      }
    }
    var tail := Join(RenderAll(ls[1..]));
    assert s == PlainLine(pre, l.key, l.content, "\n" + tail) by {
      RenderAllTail(ls);
      assert s == a + s[o..];
      PlainLineShift(a, l.indent, l.key, l.content, "\n", tail);
    }
  }

  /** The match a search from `f` finds in an entry line starting at `o`, and where the line ends. */
  lemma EntryLineMatch(s: string, ls: seq<SourceLine>, o: nat, f: nat) returns (m: Match)
    requires ls != [] && ls[0].EntryLine? && WellFormed(ls[0])
    requires o <= |s| && s[o..] == Join(RenderAll(ls))
    requires f <= o && NoChar(s, '<', f, o)
    ensures IsSearchResult(s, true, f, m) && EntryOf(s, m) == Entry(ls[0].key, ls[0].content)
    ensures m.End() < |s| && s[m.End()] == '\n' && s[m.End() + 1..] == Join(RenderAll(ls[1..]))
  {
    var l := ls[0];
    var pre := s[..o] + l.indent;
    var tail := Join(RenderAll(ls[1..]));
    var rest := "\n" + tail;
    EntryLineShape(s, ls, o, f);
    m := PlainMatch(pre, l.key, l.content);
    PlainLineMatch(pre, l.key, l.content, rest, true, f);
    PlainEntryOf(pre, l.key, l.content, rest);
    assert s[m.End()] == rest[0] && s[m.End() + 1..] == rest[1..];
  }

  /** The scan from `f` yields the entry of the search result there first. */
  lemma ScanFound(s: string, f: nat, m: Match)
    requires f <= |s| && IsSearchResult(s, true, f, m)
    ensures m.End() <= |s| && Scan(s, f) == [EntryOf(s, m)] + Scan(s, m.End())
  {
    var r := Search(s, true, f);
    assert r.Some?;
    SearchResultUnique(s, true, f, m, r.value);
    ScanStep(s, f, m);
  }

  /** One step of the scan over an other-line: nothing is yielded up to its newline. */
  lemma ScanOtherStep(s: string, ls: seq<SourceLine>, o: nat, f: nat) returns (g: nat)
    requires ls != [] && ls[0].OtherLine? && WellFormed(ls[0])
    requires o <= |s| && s[o..] == Join(RenderAll(ls))
    requires f <= o && NoChar(s, '<', f, o)
    ensures g < |s| && s[g + 1..] == Join(RenderAll(ls[1..])) && NoChar(s, '<', g, g + 1)
    ensures Scan(s, f) == Scan(s, g)
  {
    g := OtherLineGap(s, ls, o, f);
    ScanSkip(s, f, g);
  }

  /** One step of the scan over an entry line: its entry, then the rest from its newline. */
  lemma ScanEntryStep(s: string, ls: seq<SourceLine>, o: nat, f: nat) returns (g: nat)
    requires ls != [] && ls[0].EntryLine? && WellFormed(ls[0])
    requires o <= |s| && s[o..] == Join(RenderAll(ls))
    requires f <= o && NoChar(s, '<', f, o)
    ensures g < |s| && s[g + 1..] == Join(RenderAll(ls[1..])) && NoChar(s, '<', g, g + 1)
    ensures Scan(s, f) == [Entry(ls[0].key, ls[0].content)] + Scan(s, g)
  {
    var m := EntryLineMatch(s, ls, o, f);
    g := m.End();
    ghost var e := EntryOf(s, m);
    assert Scan(s, f) == [e] + Scan(s, g) by {
      ScanFound(s, f, m);
    }
  }

  /**
   * `finditer` over a file whose lines start at `o` in `s`, resumed at `f`
   * with no '<' in between: it yields the entries of the entry lines, one
   * per line, in order.
   */
  lemma {:induction false} ScanRendered(s: string, ls: seq<SourceLine>, o: nat, f: nat)
    requires forall i :: 0 <= i < |ls| ==> WellFormed(ls[i])
    requires o <= |s| && s[o..] == Join(RenderAll(ls))
    requires f <= o && NoChar(s, '<', f, o)
    ensures Scan(s, f) == Entries(ls)
    decreases |ls|
  {
    if ls == [] {
      assert o == |s|;
      forall m: Match | f <= m.start < |s| ensures !IsEntry(s, true, m) {
        NotOccursAt(s, OpenTag, m.start, 0);
      }
      ScanSkip(s, f, |s|);
    } else {
      var g;
      if ls[0].OtherLine? {
        g := ScanOtherStep(s, ls, o, f);
      } else {
        g := ScanEntryStep(s, ls, o, f);
      }
      ScanRendered(s, ls[1..], g + 1, g);
    }
  }

  /** The lines the synchronization writes for a file of `ls`, as lines again. */
  function SyncedAll(ls: seq<SourceLine>, translations: map<string, string>): seq<SourceLine> {
    seq(|ls|, i requires 0 <= i < |ls| => Synced(ls[i], translations))
  }

  /**
   * The pending marker keeps content on one line and free of `</string>`:
   * the marker holds no '<', so no closing tag starts inside it.
   */
  lemma PendingOneLine(content: string)
    requires OneLineContent(content)
    ensures OneLineContent(PendingMarker + content)
  {
    var t := PendingMarker + content;
    assert '\n' !in PendingMarker;
    forall k: nat ensures !OccursAt(t, CloseTag, k) {
      if k < |PendingMarker| {
        assert t[k] == PendingMarker[k];
        NotOccursAt(t, CloseTag, k, 0);
      } else if k + 9 <= |t| {
        assert t[k..k + 9] == content[k - |PendingMarker|..k - |PendingMarker| + 9];
        assert !OccursAt(content, CloseTag, k - |PendingMarker|);
      }
    }
  }

  /** No match starts anywhere in a line that holds no `<string`. */
  lemma OtherLineUnmatched(text: string, dotAll: bool)
    requires WellFormed(OtherLine(text))
    ensures NoEntryFrom(text + "\n", dotAll, 0)
  {
    var s := text + "\n";
    assert s == "" + text + "\n" + "";
    forall m: Match | 0 <= m.start ensures !IsEntry(s, dotAll, m) {
      if m.start <= |text| {
        NoOpenTagBefore("", text, "", 0, m.start);
      }
    }
  }

  /** Each rendered line is rewritten into the rendering of its synchronized line. */
  lemma RewriteRendered(l: SourceLine, translations: map<string, string>)
    requires WellFormed(l)
    ensures RewriteLine(Render(l), translations) == Render(Synced(l, translations))
  {
    match l
    case EntryLine(indent, key, content) =>
      if key in translations {
        PlainLineTranslated(indent, key, content, "\n", translations);
      } else {
        PlainLinePending(indent, key, content, "\n", translations);
      }
    case OtherLine(text) =>
      OtherLineUnmatched(text, false);
      UnmatchedLineKept(Render(l), translations);
  }

  /** The entries of two files one after the other. */
  lemma {:induction false} EntriesAppend(xs: seq<SourceLine>, ys: seq<SourceLine>)
    ensures Entries(xs + ys) == Entries(xs) + Entries(ys)
  {
    if xs == [] {
      assert xs + ys == ys;
    } else {
      assert (xs + ys)[0] == xs[0];
      assert (xs + ys)[1..] == xs[1..] + ys;
      EntriesAppend(xs[1..], ys);
    }
  }

  /** Every entry comes from an entry line with that key and content. */
  lemma {:induction false} EntryFromLine(ls: seq<SourceLine>, e: Entry) returns (j: nat)
    requires e in Entries(ls)
    ensures j < |ls| && ls[j].EntryLine? && ls[j].key == e.name && ls[j].content == e.content
  {
    if ls[0].EntryLine? && e == Entry(ls[0].key, ls[0].content) {
      j := 0;
    } else {
      j := EntryFromLine(ls[1..], e);
      j := j + 1;
    }
  }

  /** With unique keys, the table of a file maps each key to the content on its line. */
  lemma {:induction false} UniqueKeyTable(ls: seq<SourceLine>, i: nat)
    requires i < |ls| && ls[i].EntryLine? && UniqueKeys(ls)
    ensures ls[i].key in ToTable(Entries(ls)) && ToTable(Entries(ls))[ls[i].key] == ls[i].content
  {
    var es := Entries(ls);
    var later := ls[i + 1..];
    assert ls == ls[..i] + ([ls[i]] + later);
    EntriesAppend(ls[..i], [ls[i]] + later);
    assert ([ls[i]] + later)[1..] == later;
    var idx := |Entries(ls[..i])|;
    assert es == Entries(ls[..i]) + ([Entry(ls[i].key, ls[i].content)] + Entries(later));
    forall j | idx < j < |es| ensures es[j].name != es[idx].name {
      assert es[j] == Entries(later)[j - idx - 1];
      var j' := EntryFromLine(later, es[j]);
      assert later[j'] == ls[i + 1 + j'];
    }
    TableLastWins(es, idx);
  }

  /** The synchronized lines keep both shapes and unique keys. */
  lemma SyncedShapes(ls: seq<SourceLine>, translations: map<string, string>)
    requires forall i :: 0 <= i < |ls| ==> WellFormed(ls[i])
    requires UniqueKeys(ls)
    requires forall i :: 0 <= i < |ls| && ls[i].EntryLine? && ls[i].key in translations ==>
                           OneLineContent(translations[ls[i].key])
    ensures forall i :: 0 <= i < |ls| ==> WellFormed(SyncedAll(ls, translations)[i])
    ensures UniqueKeys(SyncedAll(ls, translations))
  {
    forall i | 0 <= i < |ls| && ls[i].EntryLine? && ls[i].key !in translations
      ensures OneLineContent(PendingMarker + ls[i].content)
    {
      PendingOneLine(ls[i].content);
    }
  }

  /** The first run writes the rendering of the synchronized lines. */
  lemma FirstRun(ls: seq<SourceLine>, translations: map<string, string>, once: seq<string>)
    requires forall i :: 0 <= i < |ls| ==> WellFormed(ls[i])
    requires once == RewriteAll(RenderAll(ls), translations)
    ensures once == RenderAll(SyncedAll(ls, translations))
  {
    var synced := SyncedAll(ls, translations);
    forall i | 0 <= i < |ls| ensures once[i] == Render(synced[i]) {
      assert RenderAll(ls)[i] == Render(ls[i]) && synced[i] == Synced(ls[i], translations);
      RewriteRendered(ls[i], translations);
    }
  }

  /** Reading back a file of the two shapes gives the table of its entries. */
  lemma ReadBack(ls: seq<SourceLine>)
    requires forall i :: 0 <= i < |ls| ==> WellFormed(ls[i])
    ensures Extract(Some(Join(RenderAll(ls)))) == ToTable(Entries(ls))
  {
    var text := Join(RenderAll(ls));
    assert text[0..] == text;
    ScanRendered(text, ls, 0, 0);
  }

  /**
   * Running the synchronization twice: the second run reads back the file
   * the first run wrote and writes the same lines again.  This holds for a
   * file whose every line is of one of the two shapes, whose keys are
   * unique, and whose target translations fit on one line.
   */
  lemma {:induction false} SyncTwice(
    ls: seq<SourceLine>, target: Option<string>, once: seq<string>, twice: seq<string>)
    requires forall i :: 0 <= i < |ls| ==> WellFormed(ls[i])
    requires UniqueKeys(ls)
    requires forall i :: 0 <= i < |ls| && ls[i].EntryLine? && ls[i].key in Extract(target) ==>
                           '\n' !in Extract(target)[ls[i].key]
    requires IsSyncOf(once, RenderAll(ls), target)
    requires IsSyncOf(twice, RenderAll(ls), Some(Join(once)))
    ensures twice == once
  {
    var english := RenderAll(ls);
    var first := Extract(target);
    var synced := SyncedAll(ls, first);
    SyncedShapes(ls, first);
    FirstRun(ls, first, once);
    ReadBack(synced);
    var second := Extract(Some(Join(once)));
    forall i | 0 <= i < |ls| ensures twice[i] == once[i] {
      match ls[i]
      case EntryLine(indent, key, content) =>
        UniqueKeyTable(synced, i);
        PlainLineSplit(indent, key, content, "\n");
        ResyncKeepsLine(english[i], first, second);
      case OtherLine(_) =>
        RewriteRendered(ls[i], second);
    }
  }
}
