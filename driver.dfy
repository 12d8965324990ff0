/**
 * `sync_file` and `main`: which resource directories are synchronized and
 * what is written into each.  The directory listing and the files in it are
 * given as values; the writes are returned instead of performed.
 */
module Driver {
  import opened Wrappers
  import opened Extractor
  import opened Reconciler
  import Text

  /** The prefix a resource directory name needs to be treated as a locale. */
  const LocalePrefix := "values-"

  /** `name.startswith('values-')`: the name is the prefix followed by anything. */
  predicate IsLocaleDir(name: string)
    ensures IsLocaleDir(name) <==> exists rest :: name == LocalePrefix + rest
  {
    if |LocalePrefix| <= |name| && name[..|LocalePrefix|] == LocalePrefix then
      assert name == LocalePrefix + name[|LocalePrefix|..];
      true
    else
      false
  }

  /** One name from the listing of the resource root. */
  datatype DirEntry = DirEntry(
    name: string,
    isDir: bool,
    /** The text of `<name>/strings.xml`, or None when that file does not exist. */
    stringsFile: Option<string>)

  /** The new content written into one locale directory's strings.xml. */
  datatype Write = Write(dir: string, lines: seq<string>)

  /** The filter: the English directory itself and other names fail, any `values-` name passes. */
  lemma LocaleDirFilter()
    ensures !IsLocaleDir("values") && !IsLocaleDir("value-fr") && !IsLocaleDir("xvalues-fr")
    ensures IsLocaleDir("values-fr") && IsLocaleDir("values-b+sr+Latn") && IsLocaleDir("values-night")
  {
    assert "value-fr"[..7][5] != LocalePrefix[5];
    assert "xvalues-fr"[..7][0] != LocalePrefix[0];
    assert "values-fr"[..7] == LocalePrefix;
    assert "values-b+sr+Latn"[..7] == LocalePrefix;
    assert "values-night"[..7] == LocalePrefix;
  }

  /** The list comprehension of `main`: the directories named `values-…`, in listing order. */
  function TargetDirs(listing: seq<DirEntry>): (dirs: seq<DirEntry>)
    ensures forall d :: d in dirs <==> d in listing && IsLocaleDir(d.name) && d.isDir
    ensures |dirs| <= |listing|
  {
    if listing == [] then []
    else
      var d := listing[0];
      (if IsLocaleDir(d.name) && d.isDir then [d] else []) + TargetDirs(listing[1..])
  }

  /** The selection keeps listing order: selecting from two listings in turn selects from their concatenation. */
  lemma {:induction false} TargetDirsAppend(a: seq<DirEntry>, b: seq<DirEntry>)
    ensures TargetDirs(a + b) == TargetDirs(a) + TargetDirs(b)
  {
    if a == [] {
      assert a + b == b;
    } else {
      var d := a[0];
      var head := if IsLocaleDir(d.name) && d.isDir then [d] else [];
      calc {
        TargetDirs(a + b);
      == { assert (a + b)[0] == d && (a + b)[1..] == a[1..] + b; }
        head + TargetDirs(a[1..] + b);
      == { TargetDirsAppend(a[1..], b); }
        head + (TargetDirs(a[1..]) + TargetDirs(b));
      == { Text.AppendAssoc(head, TargetDirs(a[1..]), TargetDirs(b)); }
        TargetDirs(a) + TargetDirs(b);
      }
    }
  }

  /** The lines `sync_file` writes for one locale file against the English lines. */
  ghost predicate IsSyncOf(lines: seq<string>, englishLines: seq<string>, targetFile: Option<string>) {
    lines == RewriteAll(englishLines, Extract(targetFile))
  }

  /**
   * `sync_file`: nothing for a name without the locale prefix or a directory
   * without strings.xml; otherwise the English lines rewritten against the
   * target's current translations.
   */
  method SyncFile(dirName: string, targetFile: Option<string>, englishLines: seq<string>)
    returns (written: Option<seq<string>>)
    ensures written.Some? <==> IsLocaleDir(dirName) && targetFile.Some?
    ensures written.Some? ==> IsSyncOf(written.value, englishLines, targetFile)
  {
    if !IsLocaleDir(dirName) {
      return None;
    }
    if targetFile.None? {
      return None;
    }
    var translations := LoadTranslations(targetFile);
    var newLines := Reconcile(englishLines, translations);
    return Some(newLines);
  }

  /** The directories among `dirs` that hold a strings.xml, in order. */
  function WithStringsFile(dirs: seq<DirEntry>): (r: seq<DirEntry>)
    ensures forall d :: d in r <==> d in dirs && d.stringsFile.Some?
    ensures |r| <= |dirs|
  {
    if dirs == [] then []
    else
      var last := dirs[|dirs| - 1];
      WithStringsFile(dirs[..|dirs| - 1]) + (if last.stringsFile.Some? then [last] else [])
  }

  /** The writes `main` makes for the directories `dirs`, in order: one per directory with a strings.xml. */
  ghost function PlannedWrites(dirs: seq<DirEntry>, englishLines: seq<string>): seq<Write> {
    if dirs == [] then []
    else
      var last := dirs[|dirs| - 1];
      PlannedWrites(dirs[..|dirs| - 1], englishLines)
      + (if last.stringsFile.Some?
         then [Write(last.name, RewriteAll(englishLines, Extract(last.stringsFile)))]
         else [])
  }

  /** The filter keeps order: filtering two runs of directories in turn filters their concatenation. */
  lemma {:induction false} WithStringsFileAppend(a: seq<DirEntry>, b: seq<DirEntry>)
    ensures WithStringsFile(a + b) == WithStringsFile(a) + WithStringsFile(b)
  {
    if b == [] {
      assert a + b == a;
    } else {
      var n := |b| - 1;
      var tail := if b[n].stringsFile.Some? then [b[n]] else [];
      calc {
        WithStringsFile(a + b);
      == { assert (a + b)[..|a + b| - 1] == a + b[..n] && (a + b)[|a + b| - 1] == b[n]; }
        WithStringsFile(a + b[..n]) + tail;
      == { WithStringsFileAppend(a, b[..n]); }
        (WithStringsFile(a) + WithStringsFile(b[..n])) + tail;
      == { Text.AppendAssoc(WithStringsFile(a), WithStringsFile(b[..n]), tail); }
        WithStringsFile(a) + WithStringsFile(b);
      }
    }
  }

  /** The planned writes go to the directories with a strings.xml, in order, each synchronized. */
  lemma {:induction false} PlannedWritesSynced(dirs: seq<DirEntry>, englishLines: seq<string>)
    ensures var writes, planned := PlannedWrites(dirs, englishLines), WithStringsFile(dirs);
      && |writes| == |planned|
      && forall i :: 0 <= i < |writes| ==>
           writes[i].dir == planned[i].name && IsSyncOf(writes[i].lines, englishLines, planned[i].stringsFile)
  {
    if dirs != [] {
      PlannedWritesSynced(dirs[..|dirs| - 1], englishLines);
    }
  }

  /**
   * `main`: nothing when the English file is missing; otherwise one write
   * per `values-…` directory of the listing that holds a strings.xml, in
   * listing order, each holding the English lines synchronized against
   * that directory's file.
   */
  method SyncAll(englishLines: Option<seq<string>>, listing: seq<DirEntry>) returns (writes: seq<Write>)
    ensures englishLines.None? ==> writes == []
    ensures englishLines.Some? ==> writes == PlannedWrites(TargetDirs(listing), englishLines.value)
    ensures englishLines.Some? ==>
              var planned := WithStringsFile(TargetDirs(listing));
              && |writes| == |planned|
              && forall i :: 0 <= i < |writes| ==>
                   writes[i].dir == planned[i].name
                   && IsSyncOf(writes[i].lines, englishLines.value, planned[i].stringsFile)
  {
    writes := [];
    if englishLines.None? {
      return;
    }
    var english := englishLines.value;
    var targets := TargetDirs(listing);
    for i := 0 to |targets|
      invariant writes == PlannedWrites(targets[..i], english)
    {
      var d := targets[i];
      assert IsLocaleDir(d.name) by {
        assert d in targets;
      }
      assert targets[..i + 1][..i] == targets[..i];
      var written := SyncFile(d.name, d.stringsFile, english);
      if written.Some? {
        writes := writes + [Write(d.name, written.value)];
      }
    }
    assert targets[..|targets|] == targets;
    PlannedWritesSynced(targets, english);
  }

  /** Every `values-…` directory with a strings.xml is among the planned writes, and only those. */
  lemma PlannedDirs(listing: seq<DirEntry>)
    ensures forall d :: d in WithStringsFile(TargetDirs(listing)) <==>
              d in listing && d.isDir && IsLocaleDir(d.name) && d.stringsFile.Some?
  {
  }
}
