/**
 * `load_translations`: every entry of a strings.xml text, scanned with the
 * DOTALL pattern from left to right, collected into a table from name to raw
 * content in which a later entry of the same name overwrites an earlier one.
 */
module Extractor {
  import opened Wrappers
  import opened Text
  import opened EntryPattern

  /** One `name`/content pair found by the pattern. */
  datatype Entry = Entry(name: string, content: string)

  /** What the group `([^"]+)` can capture. */
  predicate ValidName(name: string) {
    |name| > 0 && '"' !in name
  }

  /** `t` contains the closing tag somewhere. */
  ghost predicate HasCloseTag(t: string) {
    exists k: nat :: OccursAt(t, CloseTag, k)
  }

  /** The two groups of a match: the name after `name="`, a valid one, and the raw content between the tags. */
  function EntryOf(s: string, m: Match): (e: Entry)
    requires TailAt(s, true, m)
    ensures |e.name| == m.nameEnd - m.attr - |NameAttr| && |e.content| == m.close - m.tagEnd - 1
    ensures ValidName(e.name)
  {
    Entry(s[m.attr + |NameAttr|..m.nameEnd], s[m.tagEnd + 1..m.close])
  }

  /** The groups of a match hold a valid name and a content free of `</string>`. */
  lemma {:induction false} EntryOfWellFormed(s: string, dotAll: bool, m: Match)
    requires IsMatchAt(s, dotAll, m)
    ensures TailAt(s, true, m)
    ensures ValidName(EntryOf(s, m).name) && !HasCloseTag(EntryOf(s, m).content)
  {
    var content := s[m.tagEnd + 1..m.close];
    forall k: nat ensures !OccursAt(content, CloseTag, k) {
      if k + |CloseTag| <= |content| {
        assert content[k..k + |CloseTag|] == s[m.tagEnd + 1 + k..m.tagEnd + 1 + k + |CloseTag|];
        assert !OccursAt(s, CloseTag, m.tagEnd + 1 + k);
      }
    }
  }

  /**
   * The next match `pattern.finditer(s)` yields when it resumes at `from`:
   * the search result there, of which only what the scan needs is exported.
   */
  function NextMatch(s: string, from: nat): (r: Option<Match>)
    requires from <= |s|
    ensures r.Some? ==> from < r.value.End() <= |s| && TailAt(s, true, r.value)
    ensures r.Some? ==> ValidName(EntryOf(s, r.value).name) && !HasCloseTag(EntryOf(s, r.value).content)
  {
    var r := Search(s, true, from);
    if r.Some? then EntryOfWellFormed(s, true, r.value); r else r
  }

  /** The entries `pattern.finditer(s)` yields from index `from` on, in order. */
  function Scan(s: string, from: nat): (es: seq<Entry>)
    requires from <= |s|
    ensures forall e :: e in es ==> ValidName(e.name) && !HasCloseTag(e.content)
    decreases |s| - from
  {
    match NextMatch(s, from)
    case None => []
    case Some(m) => [EntryOf(s, m)] + Scan(s, m.End())
  }

  /** One step of the scan: the entry of the leftmost match, then the scan from its end. */
  lemma ScanStep(s: string, from: nat, m: Match)
    requires from <= |s| && NextMatch(s, from) == Some(m)
    ensures TailAt(s, true, m) && from < m.End() <= |s|
    ensures Scan(s, from) == [EntryOf(s, m)] + Scan(s, m.End())
  {
  }

  /** What the loop of `load_translations` keeps when it stores one more match. */
  lemma ScanAdvance(s: string, from: nat, seen: seq<Entry>, m: Match)
    requires from <= |s| && NextMatch(s, from) == Some(m)
    requires Scan(s, 0) == seen + Scan(s, from)
    ensures TailAt(s, true, m) && from < m.End() <= |s|
    ensures Scan(s, 0) == (seen + [EntryOf(s, m)]) + Scan(s, m.End())
    ensures ToTable(seen + [EntryOf(s, m)]) == ToTable(seen)[EntryOf(s, m).name := EntryOf(s, m).content]
  {
    ScanStep(s, from, m);
    AppendAssoc(seen, [EntryOf(s, m)], Scan(s, m.End()));
    TableAppend(seen, EntryOf(s, m));
  }

  /** The dictionary the loop builds: entries stored in order, a later name overwriting an earlier one. */
  function ToTable(es: seq<Entry>): (t: map<string, string>)
    ensures |t| <= |es|
  {
    if es == [] then map[]
    else
      var last := es[|es| - 1];
      ToTable(es[..|es| - 1])[last.name := last.content]
  }

  /** Storing one more entry updates the table at that entry's name. */
  lemma TableAppend(es: seq<Entry>, e: Entry)
    ensures ToTable(es + [e]) == ToTable(es)[e.name := e.content]
  {
    assert (es + [e])[..|es|] == es;
  }

  /**
   * The table of a strings.xml file, empty when the file does not exist.
   * Its names are valid and its contents free of `</string>`.
   */
  function Extract(file: Option<string>): (r: map<string, string>)
    ensures file.None? ==> r == map[]
    ensures forall name :: name in r ==> ValidName(name) && !HasCloseTag(r[name])
  {
    match file
    case None => map[]
    case Some(text) =>
      TableWellFormed(Scan(text, 0));
      ToTable(Scan(text, 0))
  }

  /** The table holds exactly the names that occur among the entries. */
  lemma {:induction false} TableKeys(es: seq<Entry>)
    ensures ToTable(es).Keys == set e | e in es :: e.name
  {
    if es != [] {
      var init, last := es[..|es| - 1], es[|es| - 1];
      TableKeys(init);
      assert (set e | e in es :: e.name) == (set e | e in init :: e.name) + {last.name} by {
        assert es == init + [last];
      }
    }
  }

  /** A name maps to the content of its last occurrence. */
  lemma {:induction false} TableLastWins(es: seq<Entry>, i: nat)
    requires i < |es|
    requires forall j :: i < j < |es| ==> es[j].name != es[i].name
    ensures es[i].name in ToTable(es) && ToTable(es)[es[i].name] == es[i].content
  {
    if i < |es| - 1 {
      var init := es[..|es| - 1];
      TableLastWins(init, i);
    }
  }

  /** Every value in the table is the content some entry of that name carried. */
  lemma {:induction false} TableValueFrom(es: seq<Entry>, name: string)
    requires name in ToTable(es)
    ensures Entry(name, ToTable(es)[name]) in es
  {
    var last := es[|es| - 1];
    if last.name != name {
      TableValueFrom(es[..|es| - 1], name);
    }
  }

  /** A table built from well-formed entries holds only well-formed names and contents. */
  lemma TableWellFormed(es: seq<Entry>)
    requires forall e :: e in es ==> ValidName(e.name) && !HasCloseTag(e.content)
    ensures forall name :: name in ToTable(es) ==> ValidName(name) && !HasCloseTag(ToTable(es)[name])
  {
    forall name | name in ToTable(es)
      ensures ValidName(name) && !HasCloseTag(ToTable(es)[name])
    {
      TableValueFrom(es, name);
    }
  }

  /**
   * `load_translations`: scans the text of an existing file match by match
   * and stores each name with its content.
   */
  method LoadTranslations(file: Option<string>) returns (translations: map<string, string>)
    ensures file.None? ==> translations == map[]
    ensures translations == Extract(file)
    ensures forall name :: name in translations ==> ValidName(name) && !HasCloseTag(translations[name])
  {
    translations := map[];
    if file.None? {
      return;
    }
    var text := file.value;
    ghost var seen: seq<Entry> := [];
    assert ToTable(seen) == map[];
    var pos := 0;
    var next := NextMatch(text, pos);
    while next.Some?
      invariant pos <= |text|
      invariant next == NextMatch(text, pos)
      invariant Scan(text, 0) == seen + Scan(text, pos)
      invariant translations == ToTable(seen)
      decreases |text| - pos
    {
      var m := next.value;
      ScanAdvance(text, pos, seen, m);
      var e := EntryOf(text, m);
      translations := translations[e.name := e.content];
      seen := seen + [e];
      pos := m.End();
      next := NextMatch(text, pos);
    }
    assert Scan(text, pos) == [];
    assert Scan(text, 0) == seen;
    TableWellFormed(seen);
  }
}
