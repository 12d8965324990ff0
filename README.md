# String-resource synchronization, modelled in Dafny

`sync_strings.py` keeps the localized `strings.xml` files of an Android
app in step with the English one, `values/strings.xml`. For every
resource directory whose name starts with `values-` and that already
holds a `strings.xml`, it does three things:

1. It reads that file's current translations into a dictionary from
   name to raw content.
2. It rewrites the English file line by line:
   - an English entry line gets the target's translation when the target
     has the key;
   - otherwise it gets the English content behind the marker `TODO: `;
   - every other line is copied unchanged.
3. It writes the result back over the target file.

This project models that core and proves its properties. The modules are:

- `Text` (`text.dfy`): character helpers.
  - The `\s` class, as Python's `str.isspace`.
  - A substring occurrence.
  - First-index search for a character and for a substring.
- `EntryPattern` (`entry_pattern.dfy`): the entry regular expression, in
  two modes.
  - The extractor compiles it with `re.DOTALL`; the per-line rewrite
    compiles it without.
  - The model states declaratively what Python's engine returns:
    - a match is an occurrence of the pattern's language;
    - `[^>]*` before `name="` is greedy, so the engine keeps the
      rightmost `name="` for which the rest matches;
    - `(.*?)` is lazy, so the content stops at the first `</string>`;
    - a search returns the leftmost match.
  - A matcher made of recursive functions is proved to return exactly
    that match.
- `Extractor` (`extractor.dfy`): `load_translations`.
  - The `finditer` scan.
  - The dictionary built from it, in which a later duplicate name
    overwrites an earlier one.
  - The loop that builds the dictionary is proved against the scan.
- `Reconciler` (`reconciler.dfy`): the per-line loop of `sync_file`.
  - A line splits into `line_start`, the five groups and `line_end`.
  - A line is rewritten as above.
  - The loop is proved against the per-line rewrite.
- `Driver` (`driver.dfy`): the `values-` filter, `sync_file` and `main`.
  - The directory listing and the files are given as values.
  - The writes are returned instead of being performed.
- `Scenarios` (`scenarios.dfy`): the ordinary entry line
  `<indent><string name="KEY">CONTENT</string><rest>`.
  - The per-line pattern matches it exactly at its parts.
  - What the rewrite makes of it.
- `Resync` (`resync.dfy`): running the synchronization twice.
  - The scope is a file whose lines are plain entry lines or lines that
    hold no `<string`.
  - Reading back the file the first run wrote gives the table of its
    entries.
  - The second run then writes the same lines again.

The comment at `sync_strings.py:32` says that `values-night` and similar
non-language folders are skipped. The code only tests the `values-`
prefix (line 33), so `values-night` passes the prefix filter; it is
synchronized when it holds a strings.xml (lines 37-38). The model follows
the code: `Driver.LocaleDirFilter` shows that `values-night` passes the
filter.

## Model

| member | source | states |
|---|---|---|
| EntryPattern.TagRest | sync_strings.py:21 | Given the opening tag and a `name="` position, it returns the match whose name runs to the first `"`, whose tag ends at the next `>` and whose content stops at the first `</string>` after it. Without DOTALL the content holds no newline. It returns None exactly when no match uses that `name="` position. |
| EntryPattern.TryAttr | sync_strings.py:21 | The greedy `[^>]*`: of the `name="` positions up to `q`, the match uses the rightmost one at which the rest of the pattern matches. None means no match with the tag at `p` uses any position up to `q`. |
| EntryPattern.MatchAt | sync_strings.py:21 | The match the engine returns at position `p`: it is an occurrence of the pattern, it has the greatest `name="` position, and its content is the shortest. None exactly when no match starts at `p`. |
| EntryPattern.Search | sync_strings.py:24 | `search` from a position returns the leftmost engine match at or after it. None exactly when the pattern matches nowhere from there on. |
| EntryPattern.SearchResultUnique | sync_strings.py:54 | The leftmost, greedy and lazy rules determine the search result uniquely. |
| Extractor.EntryOf | sync_strings.py:25-26 | Group 1 runs from after `name="` to the closing quote and is a valid name. Group 2 runs from after the tag's `>` to `</string>`. |
| Extractor.EntryOfWellFormed | sync_strings.py:21-26 | Group 1 of an engine match is a non-empty name without `"`. Group 2 holds no `</string>`. |
| Extractor.NextMatch | sync_strings.py:24 | The next match of `finditer` ends after the resume position and within the text, and its groups are well formed. |
| Extractor.Scan | sync_strings.py:24-26 | Every entry `finditer` yields has a valid name and a content free of `</string>`. |
| Extractor.ToTable | sync_strings.py:23-27 | The dictionary has no more keys than there were entries. |
| Extractor.TableAppend | sync_strings.py:27 | Storing one more entry sets the dictionary at its name and leaves every other name as it was. |
| Extractor.TableKeys | sync_strings.py:23-27 | The dictionary's keys are exactly the names the scan found. |
| Extractor.TableLastWins | sync_strings.py:23-27 | A name maps to the content of its last occurrence. |
| Extractor.TableValueFrom | sync_strings.py:23-27 | Every value in the dictionary is the content of some found entry with that name. |
| Extractor.TableWellFormed | sync_strings.py:23-27 | The dictionary holds only valid names and contents free of `</string>`. |
| Extractor.Extract | sync_strings.py:8-29 | A missing file gives the empty dictionary. Every name in the dictionary is valid and every content is free of `</string>`. |
| Extractor.LoadTranslations | sync_strings.py:8-29 | A missing file gives the empty dictionary. Otherwise the loop's dictionary equals the table of the `finditer` scan of the text, with valid names and contents free of `</string>`. |
| Reconciler.Groups | sync_strings.py:56-65 | Each group lies at its match positions: `line_start` ends where the match starts, `prefix_start` ends after `name="`, the content starts after the tag's `>` and ends at `</string>`, and `line_end` is what follows the match. |
| Reconciler.JoinGroups | sync_strings.py:56-65 | `line_start`, the five groups and `line_end` concatenate back to the line. |
| Reconciler.SplitLine | sync_strings.py:51-65 | The split reassembles to the line. The key is valid, the suffix is `</string>`, and the content holds neither a newline nor `</string>`. |
| Reconciler.SplitLineIsSearch | sync_strings.py:51-55 | There is no split exactly when the pattern matches nowhere in the line. Otherwise the split is made of the groups of the leftmost engine match. |
| Reconciler.NewContent | sync_strings.py:67-79 | The new content is the target's translation when the key is present. Otherwise it is `TODO: ` followed by the English content. |
| Reconciler.RewriteLine | sync_strings.py:81-83 | A line without a match is copied unchanged. The matched case is stated by `Reconciler.OnlyContentReplaced`. |
| Reconciler.MapLines | sync_strings.py:53-83 | Applying a rewrite to a list of lines gives one line per input line, in the same order, each the rewrite of its input. |
| Reconciler.RewriteAll | sync_strings.py:44-83 | One output line per English line, in the same order. Each output line is the rewrite of its English line against the target's dictionary. |
| Reconciler.Reconcile | sync_strings.py:44-83 | The list the loop builds is exactly the rewrite of all English lines. |
| Reconciler.RewriteOne | sync_strings.py:54-83 | The loop body produces the rewrite of its line: the translation, the marked English content, or the line itself. |
| Reconciler.UnmatchedLineKept | sync_strings.py:81-83 | A line in which the pattern matches nowhere is copied unchanged. |
| Reconciler.OnlyContentReplaced | sync_strings.py:62-80 | A matched line changes only in the span of its English content. That span becomes the target's translation when the key is present, else `TODO: ` followed by the English content. |
| Reconciler.WithReplacesContent | sync_strings.py:70-79 | Reassembling a split with other content replaces the content's span and nothing else. |
| Reconciler.ResyncKeepsLine | sync_strings.py:67-80 | If the target now holds, for the line's key, what the previous run wrote there, the line comes out the same. A pending marker is therefore not added twice. |
| Reconciler.TargetOnlyKeyDropped | sync_strings.py:53-83 | A key that no English line carries has no influence on the output, whatever the target holds for it. |
| Driver.IsLocaleDir | sync_strings.py:33 | A name passes exactly when it is `values-` followed by anything. |
| Driver.LocaleDirFilter | sync_strings.py:32-34 | `values`, `value-fr` and `xvalues-fr` fail the prefix test. `values-fr`, `values-b+sr+Latn` and `values-night` pass it. |
| Driver.TargetDirs | sync_strings.py:95 | A listing entry is selected exactly when it is a directory whose name starts with `values-`. No more entries come out than went in. |
| Driver.TargetDirsAppend | sync_strings.py:95 | Selecting from two listings one after the other gives the two selections concatenated. The selection therefore keeps listing order. |
| Driver.SyncFile | sync_strings.py:31-87 | Something is written exactly when the name has the `values-` prefix and the directory holds a strings.xml. What is written is the English lines rewritten against that file's dictionary. |
| Driver.WithStringsFile | sync_strings.py:36-38 | Keeps exactly the directories that hold a strings.xml. No more come out than went in. |
| Driver.WithStringsFileAppend | sync_strings.py:36-38 | Filtering two runs of directories one after the other gives the two results concatenated. The filter therefore keeps order. |
| Driver.PlannedWritesSynced | sync_strings.py:98-99 | The writes planned for a run of directories go, one each and in order, to the directories that hold a strings.xml. Each holds the English lines rewritten against that directory's dictionary. |
| Driver.SyncAll | sync_strings.py:89-99 | A missing English file writes nothing. Otherwise the writes are the planned writes for the selected directories. That is one write per selected directory that holds a strings.xml, in listing order, each holding that directory's synchronized lines. |
| Scenarios.PlainLineShift | sync_strings.py:63-65 | Text around a plain entry line makes another plain entry line. Text before it joins the indentation, and text after it joins the rest. |
| Scenarios.PlainLineMatch | sync_strings.py:21 | On a plain entry line, in either mode, the leftmost, greedy and lazy match is the one at the line's own tag. |
| Scenarios.SingleNameAttr | sync_strings.py:21 | In a tag `name="KEY">` whose key holds no `=`, no other `name="` starts after the first one and before the tag's `>`. |
| Scenarios.PlainSlices | sync_strings.py:56-65 | The slices of a plain entry line at the positions of its match are its indentation, `<string name="`, the key, `">`, `</string>` and the rest of the line. |
| Scenarios.PlainGroups | sync_strings.py:56-65 | The groups of that match are the indentation, `<string name="`, the key, `">`, the content, `</string>` and the rest of the line. |
| Scenarios.PlainLineSplit | sync_strings.py:51-65 | A plain entry line splits into exactly those parts. |
| Scenarios.PlainLinePending | sync_strings.py:72-80 | Against a target without the key, the line keeps everything but its content, which becomes `TODO: ` followed by the English content. |
| Scenarios.PlainLineTranslated | sync_strings.py:67-71 | Against a target with the key, the line keeps everything but its content, which becomes the target's translation. |
| Resync.ScanSkip | sync_strings.py:24 | `finditer` resumed anywhere in a stretch where no match starts yields the same entries. |
| Resync.OtherLineUnmatched | sync_strings.py:81-83 | A line that holds no `<string` is matched nowhere, in either mode. |
| Resync.ScanRendered | sync_strings.py:21-27 | `finditer` over a file of plain entry lines and lines without `<string` yields the entries of the entry lines, one per line, in order. |
| Resync.RewriteRendered | sync_strings.py:53-83 | Each line of such a file is rewritten into the line with the new content, and other lines are copied. |
| Resync.UniqueKeyTable | sync_strings.py:23-27 | If keys are unique, the dictionary read from such a file maps each key to the content on its line. |
| Resync.PendingOneLine | sync_strings.py:78 | Content on one line and free of `</string>` stays so behind the `TODO: ` marker. |
| Resync.SyncedShapes | sync_strings.py:67-80 | If the translations for the file's keys fit on one line, the synchronized lines keep the two shapes and the unique keys. |
| Resync.FirstRun | sync_strings.py:53-87 | The first run writes the rendering of the synchronized lines: the same two shapes, with the same keys, each entry line carrying its new content. |
| Resync.ReadBack | sync_strings.py:8-29 | Reading back such a file gives the table of its entries. |
| Resync.SyncTwice | sync_strings.py:31-87 | Synchronizing against the file the previous run wrote yields the same lines again. |

## Left out

- File I/O is not modelled.
  - Not covered: `os.path.exists`, `open`, `read`, `readlines` with its
    UTF-8 decoding, and `writelines`.
  - Instead, a file is its text (`Option<string>`, None when it does not
    exist), and the English file is its list of lines.
  - A synchronization returns the lines to write.
  - `Resync.Join` stands for writing those lines and reading the file
    back.
- The English file is re-read for every target directory (lines 46-47).
  The model reads it once and shares the value, so a change to it during
  a run is not captured.
- Failures are not modelled: an unreadable file, invalid UTF-8, or an
  English file that vanishes after `main`'s check.
- The `print` calls (lines 40, 90, 92, 96 and 101) and the
  `__main__` guard are left out: they are output only.
- The path constants and `os.path.join` are left out. A directory is
  identified by its name from the listing. The listing's order is
  whatever `os.listdir` returns; the model takes it as given.
- Python's general `re` engine is not modelled. Only the two uses of the
  entry pattern are, with their match semantics stated directly.
- `Resync.SyncTwice` covers only files of a restricted shape. Every
  restriction is listed here.
  - Every line, the last one included, ends in exactly one `\n`.
  - A line is either a plain entry line or a line that holds no
    `<string`.
  - A plain entry line is `<indent><string name="KEY">CONTENT</string>`
    followed directly by `\n`. Nothing else follows `</string>`.
  - The indentation holds no `<`.
  - The key is non-empty and holds no `"`, `=` or `>`.
  - The English content holds no newline and no `</string>`. It may hold
    `<`.
  - Keys are unique in the English file.
  - The target's translation for every English key holds no newline.
  - A line outside these shapes, such as a self-closing
    `<string name="x"/>` or an element spread over several lines, lets
    the DOTALL extractor run a match across lines. Such files are outside
    the theorem.
- English content that already begins with `TODO: ` gets a second marker.
  This follows the code; no property beyond the rewrite itself is stated
  for it.
