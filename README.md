# initool's `IniFile`, modelled in Dafny

initool is a small command-line tool that reads, edits and deletes keys of
an INI file while leaving the rest of the file's text as it was. Its core is
the class `IniFile` in `initool.cpp`. The class keeps the file as a vector
of raw lines, `lines_`. Over those lines it keeps an index with three maps:

- `section_lines_`: a case-folded section name to the line of its header (its *anchor*);
- `key_lines_`: a section and key to the key's line;
- `data_`: a section and key to the key's unquoted value.

Around the class sit the string helpers `trim`, `to_lower`, `starts_with`,
`is_section_header`, `unquote` and `quote_if_needed`.

The model has seven modules:

- `Wrappers` (`wrappers.dfy`): `Option` and `Result`. An exception of
  the source is an `Err` carrying the exception's message.
- `Utility` (`utility.dfy`): the string helpers as pure functions, and
  their properties: what `trim` removes, case folding, and the
  quoting round trip.
- `LineIO` (`line_io.dfy`): the text `write` emits, and the way
  `std::getline` splits a text back into lines.
- `Loader` (`loader.dfy`): `load` as a fold over the kinds of the lines.
  It gives a line-by-line description of what the index means (the last
  header of each name, the last assignment of each pair). It proves that
  `load` builds exactly that index, and it defines the lookup of `get`.
- `Editing` (`editing.dfy`): what `set` and `del` do, as functions of
  the state before the call. It proves each editing branch's policy about
  which lines change and where the new line goes. It also proves that the
  renumbering of `del` keeps the index consistent.
- `Ini` (`ini_file.dfy`): the class `IniFile` with the four fields, each
  member proved against the functions of `Loader` and `Editing`:
  - the constructor runs `load`'s loop, line by line;
  - `Get` is a function that reads the fields and changes nothing;
  - `Set` and `Del` are methods that change the fields in place;
  - `Write` is a method that changes nothing and returns the text, built
    by a loop over the lines.
  The other loops sit in `Editing`: the insertion scan of `set`
  (`ScanInsertPosition`) and the renumbering of `del` (`Renumber`,
  `RenumberKeyLines`).
- `Reload` (`reload.dfy`): what the next run of initool reads back from
  the file an edit wrote. The text `write` emitted is split into lines
  again, as `std::getline` does, and `load` runs over those lines. When no
  line and no argument holds a '\n', those lines are exactly the edited
  line store. The lemmas about each branch of `set` are stated over that
  store, and `SetThenLoad`, `SetThenGet` and `SetTwice` carry them to the
  text.
  - For `set`, in each of its three branches, the values read back are
    the old ones with the one pair replaced. So `get` then returns the new
    value, and every other pair keeps its answer.
  - Running the same `set` a second time, on the lines the next run reads
    from the file the first one wrote, writes exactly the same lines.
  - For `del`, every other pair keeps its answer. The deleted pair reads
    back as the lines before its key line leave it. An earlier line that
    assigns the same pair (a duplicate key) makes it reappear with that
    line's value.
  - These facts hold under conditions the text format needs: see
    "Left out".

Two facts about the class shape the contracts:

- `set` changes only the line store. It does not refresh `data_`,
  `key_lines_` or `section_lines_`. The one exception is
  `key_lines_[sec_lower]` at initool.cpp:97, which can add an empty table.
  So `Set` promises to keep `Valid()` (every stored line number is a
  line), but not `Indexed()` (the index describes the lines).
- `load` produces `Indexed()`, and `del` preserves it.

Where the intended behaviour and the code differ, the model follows the
code:

- The intended `get` tells a missing section from a missing key.
  The code reports "key not found" for both (initool.cpp:78). Only `del`
  reports "section not found" (initool.cpp:134).
- The intended `set` rebuilds or extends the index. The code changes
  only the lines (see above).
- The intended insertion scan stops at the next section header.
  The code stops at any line whose trimmed text starts with '['
  (initool.cpp:110), including lines that `load` does not read as headers.
- The intended `set` leaves the pair with the given value in the file's
  text. The model proves this for keys, values and section names of the
  shapes the `Reload` lemmas require. Some other inputs lose it (see
  "Left out").

## Model

| member | source | states |
|---|---|---|
| Utility.Trim | initool.cpp:21-28 | the result of `trim` is no longer than the input and has no space, tab, CR or LF at either end |
| Utility.TrimAllSpace | initool.cpp:21-26 | `trim` gives "" exactly when every character is a space, tab, CR or LF |
| Utility.TrimShape | initool.cpp:21-28 | the input is the result padded on the left and on the right by all-space text |
| Utility.TrimOfPadded | initool.cpp:21-28 | any all-space padding around an edge-clean text is removed by `trim`, and nothing else |
| Utility.TrimIdempotent | initool.cpp:21-28 | `trim` is idempotent |
| Utility.ToLower | initool.cpp:30-37 | `to_lower` keeps the length |
| Utility.ToLowerChars | initool.cpp:30-37 | `to_lower` lowercases character by character (ASCII), leaving no upper-case letter |
| Utility.ToLowerIdempotent | initool.cpp:30-37 | folding twice is folding once |
| Utility.HeaderTestIsStricter | initool.cpp:39-45 | every section header starts with '[', but a line starting with '[' need not be a header |
| Utility.Unquote | initool.cpp:47-52 | `unquote` strips exactly one pair of double quotes, and only from a text of length at least 2 with a quote at both ends; anything else is returned unchanged |
| Utility.QuoteIfNeeded | initool.cpp:54-59 | `quote_if_needed` wraps the value in double quotes exactly when it holds a space or an '=' |
| Utility.UnquoteQuoteIfNeeded | initool.cpp:47-59 | `unquote(quote_if_needed(v)) == v` exactly when `v` needs quotes or is not itself quoted |
| Utility.Find | initool.cpp:102 | `find` gives the first position of the character, or nothing when the character is absent |
| LineIO.SerializeSnoc | initool.cpp:215-216 | writing one more line appends that line and a '\n' to the text |
| LineIO.SplitSerialize | initool.cpp:185-186 | re-reading what `write` wrote, line by line as `getline` does, gives back the same lines, provided no line holds a '\n' |
| LineIO.SerializeSplit | initool.cpp:185-186 | a text survives reading and writing back exactly when it is empty or ends with '\n' |
| Loader.ClassifyAssignment | initool.cpp:189-201 | a line is read as an assignment exactly when its trimmed text is non-blank, does not start with ';', is not a header and holds a '=' |
| Loader.StepOfLine | initool.cpp:187-204 | one iteration of the loop of `load`, branch by branch: blank and comment lines change nothing; a header becomes the current section and records its line; a line with '=' in a named section records its folded key, its unquoted value and its line; anything else changes nothing |
| Loader.FoldCurrent | initool.cpp:183-196 | the current section after any number of lines is the name of the last header among them, or "" |
| Loader.FoldSections | initool.cpp:193-196 | after `load`, each anchor is the last header of that name, and every header name has an anchor |
| Loader.FoldKeyLines | initool.cpp:196-204 | after `load`, each key line is the last line assigning that pair under a non-empty current section, and every such pair is indexed; a repeated key overwrites the earlier one |
| Loader.FoldData | initool.cpp:200-203 | after `load`, `data_` has the same pairs as `key_lines_`, and each value is the one written on the pair's line |
| Loader.ConsistentEntriesDistinct | initool.cpp:171-174 | in a consistent index every line number is a line of the store, and no two entries share a line |
| Loader.LoadConsistent | initool.cpp:176-207 | `load` builds a consistent index within the lines, and indexes no key under the empty section that a header such as `[ ]` names |
| Loader.LookupFoldsCase | initool.cpp:70-72 | `get` depends on the names only through `to_lower` |
| Loader.LookupAfterLoad | initool.cpp:70-79 | right after `load`, `get` succeeds exactly when some line assigns the folded pair in a named section; it then returns the unquoted, trimmed value of the last such line; every failure is "key not found" |
| Editing.ScanForBracket | initool.cpp:107-119 | the scan stops at the first line whose trimmed text starts with '[', or at the end of the store |
| Editing.InsertPosition | initool.cpp:107-119 | the insertion point lies after the anchor, and no line between the anchor and it starts with '[' |
| Editing.ScanStopsAt | initool.cpp:108-119 | any position with no '[' line before it from the start of the scan, and a '[' line or the end at it, is where the scan stops |
| Editing.InsertPositionLands | initool.cpp:107-119 | the new key lands after the anchor and before any '[' line; then at the end, or on the first '[' line unless the line before it is blank and is not the anchor line, or on the blank line right before the first '[' line |
| Editing.InsertPositionExact | initool.cpp:107-119 | no other position fits that description, so it fixes the insertion point |
| Editing.ScanInsertPosition | initool.cpp:107-119 | the loop of `set` finds exactly the insertion point position described above |
| Editing.SetKeepsInBounds | initool.cpp:81-126 | `set` never shortens the store, and every stored line number stays a line |
| Editing.SetNewSection | initool.cpp:87-93 | unknown section: the old lines stay as a prefix; one blank separator follows exactly when the last line is non-blank; then the header and the key line in the caller's case |
| Editing.SetExistingKey | initool.cpp:99-104 | indexed key: the number of lines stays the same and only the key's line changes, to its trimmed left-hand side, " = " and the new value |
| Editing.SetNewKey | initool.cpp:105-121 | known section, absent key: exactly one line, the new key line, goes in at the insertion point, and every other line keeps its order |
| Editing.Renumber | initool.cpp:153-157 | the renumbering loop over one table moves every line number above the erased line down by one and keeps the others |
| Editing.RenumberKeyLines | initool.cpp:152-158 | the nested loop renumbers each section's key table |
| Editing.RemoveAtShift | initool.cpp:145-164 | after the erase, a renumbered line number names the same text as before |
| Editing.KindsRemoveAt | initool.cpp:145 | erasing a line erases exactly its kind from the kinds of the file |
| Editing.ShiftKeepsAnchors | initool.cpp:160-164 | renumbered anchors still sit on their headers |
| Editing.ShiftKeepsData | initool.cpp:148-158 | after the erase, every other pair still sits on a line that assigns it its stored value |
| Editing.ShiftKeepsDistinct | initool.cpp:149-158 | after the erase, key lines are still distinct |
| Editing.DeleteKeepsConsistent | initool.cpp:142-164 | a successful `del` leaves the index consistent with the lines |
| Ini.IniFile.constructor | initool.cpp:176-207 | after `load` the store is the input lines in order, each map is what `load` builds, and the index is consistent |
| Ini.IniFile.LoadLine | initool.cpp:185-205 | one pass of the loop of `load`: the line is stored, and the maps change as the step of the fold says |
| Ini.IniFile.Get | initool.cpp:70-79 | `get` changes nothing, and every failure is "key not found"; on an indexed object it succeeds exactly for an indexed pair and returns the value that pair's line assigns |
| Ini.IniFile.Write | initool.cpp:215-216 | the text written is every line followed by '\n' |
| Ini.IniFile.Set | initool.cpp:81-126 | the new store is the one the branch of `set` gives; `section_lines_` and `data_` are unchanged; `key_lines_` gains at most an empty table; line numbers stay valid |
| Ini.IniFile.Del | initool.cpp:128-167 | it succeeds exactly when the folded section and key are indexed; an unknown section gives "section not found" and an unknown key "key not found", both before any change; on success the key's line is erased, the key leaves both tables, every line number above the erased line goes down by one, and the index stays consistent |
| Reload.ValueReadsBack | initool.cpp:47-59 | a value written by `quote_if_needed` and read back through `trim` and `unquote` is the same value exactly when it gets quotes, or has no space, tab, CR or LF at either end and does not look quoted itself |
| Reload.ClassifyKeyLine | initool.cpp:93 | the line `key = value` that `set` writes is read by `load` as an assignment of the folded key and the value, for a plain key and a value that reads back |
| Reload.ClassifyHeaderLine | initool.cpp:92 | the header `set` appends is read by `load` as a header of the folded name, when the name is non-empty with no space at either end |
| Reload.RewrittenLineSplit | initool.cpp:101-104 | the rewritten line is the old line's own trimmed left-hand side, then " = " and the quoted value; that left-hand side folds to the key `load` read, has no edge space and no '=', and is not a comment |
| Reload.FoldRewrite | initool.cpp:99-104 | replacing the last line that assigns a pair with an assignment of a new value changes, on reload, only that pair's value |
| Reload.FoldInsert | initool.cpp:120-121 | inserting an assignment of a pair assigned nowhere, at a point inside its section, adds exactly that pair on reload and keeps the current section from then on |
| Reload.FoldAppendSection | initool.cpp:89-93 | appending (a blank line,) a header and an assignment adds exactly that pair on reload |
| Reload.InsertionInSection | initool.cpp:107-119 | the insertion point of `set` for a section `load` read lies inside that section: the anchor is a line, and the section in effect at the point is that section |
| Reload.AbsentPairNowhere | initool.cpp:196-204 | a pair `load` did not index is assigned on no line of the file |
| Reload.ValuedPairIndexed | initool.cpp:193-204 | a pair `load` gave a value has a key line, and its section has an anchor |
| Reload.SectionBeforeHasHeader | initool.cpp:193-196 | a named current section was opened by an earlier header of that name |
| Reload.SetExistingKeyThenLoad | initool.cpp:99-104 | rewriting an indexed key and reloading gives the same anchors and key lines, and the same values except the pair's new one |
| Reload.SetNewKeyThenLoad | initool.cpp:105-121 | inserting an absent key into a named known section and reloading gives the old values plus the new pair |
| Reload.SetNewSectionThenLoad | initool.cpp:87-93 | appending an unknown section with its key and reloading gives the old values plus the new pair |
| Reload.SetThenLoadLines | initool.cpp:81-126 | whatever branch `set` takes, `load` over the edited line store gives the old values with the pair set to the new value |
| Reload.KeyedSectionsKnown | initool.cpp:193-204 | every line that `load` reads as assigning a pair lies in a section `load` anchored |
| Reload.KeyAtPrefix | initool.cpp:183-204 | lines appended after others leave what those others assign unchanged |
| Reload.InsertedOnlyAssignment | initool.cpp:120-121 | an assignment of a pair assigned nowhere, inserted inside its section, is then the only line assigning that pair |
| Reload.AppendedOnlyAssignment | initool.cpp:87-93 | after appending a header and an assignment of a pair assigned nowhere, the last line is the only one assigning that pair |
| Reload.AppendedSectionKinds | initool.cpp:87-93 | the appended section reads as (a skipped line,) a header of the folded name and an assignment of the folded key, and the last line is the key line in the caller's case |
| Reload.UnknownSectionNowhere | initool.cpp:193-204 | no line assigns a pair of a section that `load` did not anchor |
| Reload.RewriteWritten | initool.cpp:99-104 | rewriting a line `set` wrote itself, with the same value, gives that same line |
| Reload.PairIndexedAfterSet | initool.cpp:81-126 | after `set`, `load` anchors the section and indexes the pair, on a line that assigns it |
| Reload.WrittenNewSection | initool.cpp:87-93 | unknown section: the key line `load` then records is the last line, the one `set` appended |
| Reload.WrittenExistingKey | initool.cpp:99-104 | indexed key: `load` records the same key lines as before, and the pair's line is a plain left-hand side, " = " and the quoted value |
| Reload.WrittenNewKey | initool.cpp:105-121 | known section, absent key: the key line `load` then records is the line `set` inserted |
| Reload.RewriteKeepsWritten | initool.cpp:99-104 | `set` over a store whose line for the pair is one it wrote with the same value changes no line |
| Reload.SetAgainChangesNothing | initool.cpp:81-126 | the same `set`, run over what `load` reads from the edited store, writes exactly the same lines |
| Reload.TrimNoNewline | initool.cpp:21-28 | `trim` adds no '\n' |
| Reload.RewrittenNoNewline | initool.cpp:101-104 | a rewritten key line holds a '\n' only if the old line or the value does |
| Reload.SetLinesNoNewline | initool.cpp:81-126 | `set` writes no line holding a '\n' when neither the old lines nor its arguments hold one |
| Reload.SetThenLoad | initool.cpp:81-126 | `set`, then `write` (initool.cpp:215-216), then `getline` (initool.cpp:185-186) and `load` in the next run: the text reads back as the edited lines, and `load` gives the old values with the pair set to the new value |
| Reload.SetThenGet | initool.cpp:70-126 | after `set`, `write` and the next run's `load`, `get` of the pair returns the new value, and `get` of any other pair answers as before |
| Reload.SetTwice | initool.cpp:81-126 | a second identical `set`, on the lines the next run reads from the file the first one wrote, writes the same lines again |
| Reload.FoldRemove | initool.cpp:145 | erasing the last line that assigns a pair leaves the current section alone; on reload that pair has the value the earlier lines gave it, and every other pair its usual value |
| Reload.RemoveAtNoNewline | initool.cpp:145 | after the erase, the file `write` writes reads back as the erased store when no line holds a '\n' |
| Reload.DeleteThenLoad | initool.cpp:142-149 | after `del` and a reload, `get` of the deleted pair answers as the lines before its key line would, and `get` of any other pair answers as before; with no '\n' in any line, the text `write` writes reads back as that store |

## Left out

- File I/O: opening and truncating the file, and the "cannot open file" and "cannot write file" errors (initool.cpp:177-180, 210-213). The constructor takes the lines `std::getline` would read from the file. `Write` returns the text `write` would write, and `Set` and `Del` return that text.
- The file path (`path_`) and the hashing of `std::unordered_map`. The maps are Dafny `map`s, so iteration order does not show.
- `main` and `usage` (initool.cpp:223-280): argument counting, printing and exit codes.
- Exceptions as a mechanism. `Get` and `Del` return a `Result` whose error carries the exception's message.
- `std::tolower` beyond ASCII. `LowerChar` maps 'A'..'Z' to 'a'..'z' and leaves every other character alone, as the "C" locale does.
- `size_t` is modelled as `nat`. No line number can overflow a file that fits in memory.
- Ini.IniFile.LoadLine, Editing.ScanInsertPosition, Editing.Renumber, Editing.RenumberKeyLines: the loop bodies of `load` and the scan and renumbering loops of `set` and `del` are separate methods. The scan and renumbering work on values (a `seq` and `map`s) that the caller stores back. The field updates are the same. Only the maps' iteration order is abstracted away, as the sets of remaining keys.
- Ini.IniFile.Get: its contract speaks of the lines only when the object is `Indexed()`. After a `set` the index is stale, and `get` still reads the old `data_`.
- Ini.IniFile.Set: it requires only `Valid()`, which is what indexing into `lines_` needs. It does not promise `Indexed()`: `set` leaves the index as it was, so the index can go out of step with the lines.
- `set` with the empty section: an anchor for "" exists only after a header such as `[ ]`, and a key line inserted there is not indexed on the next load. An unknown empty section appends `[]`, which `is_section_header` does not accept (it needs three characters). The model keeps both behaviours as written.
- Reload.SetThenLoad, Reload.SetThenGet, Reload.SetTwice: they require a plain key (no space at either end, no '=', no leading ';' or '['), a value that reads back (see Reload.ValueReadsBack), a non-empty section name with no space at either end, and no '\n' in the lines read or in any argument. The model promises nothing about the file read back outside these. Some such inputs evidently lose what was set: a key `a=b` is split at its first '='; a value like `"x"` is unquoted to `x`; a value with no space or '=' and a tab at one end is trimmed; a section `[ ]` or `[]` is not indexed; a '\n' in an argument splits the written line in two.
- Reload.SetExistingKeyThenLoad, Reload.SetNewKeyThenLoad, Reload.SetNewSectionThenLoad, Reload.SetThenLoadLines, Reload.SetAgainChangesNothing: they are stated over the edited line store, not over the text `write` writes. Reload.SetThenLoad and Reload.SetTwice carry them to the text, under the no-'\n' conditions above.
- Reload.SetExistingKeyThenLoad: it requires of the key only that it does not start with '['. The rewritten line keeps the old line's own left-hand side, which already reads back.
- Reload.DeleteThenLoad: it is stated for a store exactly as `load` read it. `del` on an object that a `set` has already edited works on a stale index, and that is not covered.
- Reading back is stated with the values (`data_`) only. The line numbers that a reload records shift with the edit, and they are compared only in Reload.SetExistingKeyThenLoad, where no line moves.
