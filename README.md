# File renamer: pending list and rename pass

This project models the core of `FileRenamer`, a small desktop tool that keeps a list of
pending files and renames them in one pass by finding and replacing text in each file's
basename. The model covers:

- the pending list `files_to_rename`: `add_files` appends only new paths, `clear_list`
  empties the list, and the paste dialog turns a block of text into candidate paths;
- `replace_all` without regular expressions. For each pending file it computes a new
  basename, case-sensitively (`str.replace`) or ignoring case (a splice at the first
  occurrence in the lowered name). It then attempts `os.rename` into the same directory and
  counts the file as renamed or skipped. Afterwards `show_result` empties the list.

Modules, one file each:

- `PyStr` (`pystr.dfy`) models the Python string operations the tool uses: `p in s`,
  `s.find(p)`, `s.replace(p, r)`, `s.lower()`, `s.strip()` and `s.split(sep)`. Each has its
  defining properties proved.
- `PosixPath` (`posix_path.dfy`) models `os.path.dirname`, `os.path.basename` and the
  two-argument `os.path.join`, following POSIX path rules.
- `Pending` (`pending.dfy`) specifies the pending list as values. `NewArrivals` is what
  `add_files` appends, `ParsePaths` is the paste parser, and `KeepExisting` is the
  existence filter.
- `RenamePass` (`rename_pass.dfy`) specifies the new basename of one file (`NewName`), what
  happens to one file (`FileOutcome`) and to all of them (`PassOutcomes`), and the two
  counters. `RenameFiles` is the loop of `replace_all`, proved against these functions.
- `MainWindow` (`main_window.dfy`) holds the class `FileRenamer`. Its field `filesToRename`
  is updated in place by `AddFiles`, `ClearList`, `ProcessPastedPaths`, `ReplaceAll` and
  `ShowResult`. The class invariant says the list never holds a path twice.
- `Seqs` (`seqs.dfy`) holds two facts about sequence prefixes that the loops use.

The file system enters only as oracles:

- `os.path.exists` is a set `onDisk` of the paths that exist.
- `os.rename` is a sequence `renameOk` with one success flag per pending file. The flag is
  consulted only for files that match.

What `replace_all` does with the file system is returned in a `Report`: one outcome per
pending file, in order. A matching file's outcome carries its source and target path and
whether the rename succeeded. A file that does not match has the outcome `NoMatch`, with no
path and no rename attempt.

A name that rewrites to itself is not treated specially. One might expect it to count as
skipped, but `replace_all` has no such check: in either mode the file still goes through
`os.rename` and counts as renamed when the call succeeds. The model follows the code here
(`RenamePass.UnchangedNameStillRenamed`). Case-sensitively this happens whenever the replace
text equals the find text; ignoring case it can also happen when they differ only in case
(`RenamePass.ExampleUnchangedIgnoringCase`).

## Model

| member | source | states |
|---|---|---|
| PyStr.Contains | FileRenamer.py:221 | definition of `p in s`: the pattern occurs at some index; `Find` and the `Replace` lemmas are stated in terms of it |
| PyStr.ReplaceFrom | FileRenamer.py:227 | definition of the left-to-right scan of `str.replace` from index `i`: at an occurrence, emit the replacement and skip the pattern, otherwise copy one character; `ReplaceFromAt`, `ReplaceFromNoMatch`, `ReplaceFromIdentity` and `ReplaceFromAvoids` state its meaning |
| PyStr.Replace | FileRenamer.py:227 | definition of `s.replace(p, r)` for a non-empty `p`: the scan from index 0; `ReplaceAt`, `ReplaceAtFirst`, `ReplaceNoMatch`, `ReplaceIdentity` and `ReplaceAvoids` state its meaning |
| PyStr.Find | FileRenamer.py:224 | `find` gives -1 exactly when the pattern does not occur; otherwise it gives an index where the pattern occurs, with no occurrence before it |
| PyStr.ReplaceFromNoMatch | FileRenamer.py:227 | once no occurrence is left ahead of the scan, the rest of the text is copied unchanged |
| PyStr.ReplaceNoMatch | FileRenamer.py:227 | `replace` leaves a text without the pattern unchanged |
| PyStr.ReplaceFromAt | FileRenamer.py:227 | the scan copies the text up to the next occurrence, puts the replacement in its place, and goes on right after it (occurrences never overlap) |
| PyStr.ReplaceAt | FileRenamer.py:227 | `replace` keeps the text before the first occurrence, replaces that occurrence, and goes on scanning after it |
| PyStr.ReplaceAtFirst | FileRenamer.py:227 | the same, at the index `find` reports, which lies inside the text |
| PyStr.ReplaceFromIdentity | FileRenamer.py:227 | a scan that replaces the pattern by itself gives back the rest of the text |
| PyStr.ReplaceIdentity | FileRenamer.py:227 | replacing the pattern by itself leaves any text unchanged |
| PyStr.ReplaceFromAvoids | FileRenamer.py:227 | the scan produces no character that is in neither the text nor the replacement |
| PyStr.ReplaceAvoids | FileRenamer.py:227 | `replace` introduces no character that is in neither the text nor the replacement |
| PyStr.Lower | FileRenamer.py:202-203 | lowering keeps the length of the text |
| PyStr.LowerAt | FileRenamer.py:202-203 | lowering works character by character, in place |
| PyStr.LowerSliceConcat | FileRenamer.py:224-225 | lowering commutes with slicing and with concatenation, so positions in the lowered name are positions in the name |
| PyStr.TrimLeft | FileRenamer.py:151-152 | definition of `lstrip()`: drop leading whitespace one character at a time; `TrimLeftSpec` states its meaning |
| PyStr.TrimRight | FileRenamer.py:151-152 | definition of `rstrip()`: drop trailing whitespace one character at a time; `TrimRightSpec` states its meaning |
| PyStr.Strip | FileRenamer.py:151-152 | definition of `strip()` as `rstrip` after `lstrip`; `StripSpec` states its meaning |
| PyStr.TrimLeftSpec | FileRenamer.py:151-152 | `lstrip` removes a whitespace-only prefix and stops at the first non-whitespace character |
| PyStr.TrimRightSpec | FileRenamer.py:151-152 | `rstrip` removes a whitespace-only suffix and stops at the last non-whitespace character |
| PyStr.StripSpec | FileRenamer.py:151-152 | `strip` keeps a contiguous middle part with only whitespace around it; the result neither starts nor ends with whitespace, and it is empty exactly when the text is all whitespace |
| PyStr.StripSpaceCons | FileRenamer.py:151-152 | a leading whitespace character does not change what `strip` returns |
| PyStr.TrimLeftSnoc | FileRenamer.py:151-152 | a trailing whitespace character survives `lstrip` exactly when the text before it is not all whitespace |
| PyStr.StripSpaceSnoc | FileRenamer.py:151-152 | a trailing whitespace character does not change what `strip` returns |
| PyStr.Split | FileRenamer.py:151 | `split` returns at least one piece, and no piece holds the separator |
| PyStr.SplitJoin | FileRenamer.py:151 | joining the pieces with the separator gives the text back |
| PyStr.JoinSplit | FileRenamer.py:151 | splitting a join of separator-free pieces gives those pieces back |
| PyStr.SplitSnoc | FileRenamer.py:151 | appending a character either starts a new piece (the separator) or extends the last piece |
| PosixPath.SplitIndex | FileRenamer.py:197-198 | the split point lies just past the last separator, and no separator follows it |
| PosixPath.Basename | FileRenamer.py:198 | `basename` is a separator-free suffix of the path that starts the path or follows a separator |
| PosixPath.Dirname | FileRenamer.py:197 | `dirname` is the text before the last separator with its trailing separators removed: a prefix of that text followed there by separators only, empty exactly when the path holds no separator, the whole text when it is all separators (the root), and otherwise ending in a non-separator |
| PosixPath.RStripSep | FileRenamer.py:197 | `rstrip('/')` keeps a prefix that does not end in a separator and removes only separators |
| PosixPath.Join | FileRenamer.py:228 | definition of two-argument `os.path.join`: an absolute second part replaces the first, otherwise one separator is put between them unless the first is empty or already ends in one; `JoinSplits` states what `dirname` and `basename` give back |
| PosixPath.SplitIndexAppend | FileRenamer.py:228 | after a text ending in a separator and a separator-free name, the last separator is the one at the join |
| PosixPath.JoinSplits | FileRenamer.py:228 | joining a directory name (as `dirname` returns it) with a plain file name gives back that directory name and that basename |
| PosixPath.RenameKeepsDirectory | FileRenamer.py:197-198 | the new path of a rename has the old path's directory and the new name as its basename |
| Pending.NewArrivals | FileRenamer.py:170-172 | definition of what the loop of `add_files` appends: each given path not pending yet and not appended earlier in the same call; `NewArrivalsMembers`, `NewArrivalsDistinct` and `NewArrivalsInOrder` state its meaning |
| Pending.NewArrivalsMembers | FileRenamer.py:170-172 | `add_files` appends exactly the given paths that were not already pending |
| Pending.NewArrivalsDistinct | FileRenamer.py:170-172 | `add_files` appends no path twice, even when it is given twice |
| Pending.AddKeepsListDistinct | FileRenamer.py:169-173 | after `add_files` the list is still duplicate-free, the old contents are an unchanged prefix, every given path is pending, and nothing else was added |
| Pending.NewArrivalsOfHeld | FileRenamer.py:170-172 | paths that are all pending already add nothing |
| Pending.AddIsIdempotent | FileRenamer.py:169-173 | adding the same paths a second time changes nothing |
| Pending.FirstIndex | FileRenamer.py:170-171 | a pending path has a first position in a list, and it occurs nowhere before that position |
| Pending.FirstIndexSnoc | FileRenamer.py:170-172 | appending to a list does not move the first position of a path already in it |
| Pending.OrderSnoc | FileRenamer.py:170-172 | the first-occurrence order survives an append, and a path new to the list may come last |
| Pending.NewArrivalsInOrder | FileRenamer.py:170-172 | new paths are appended in the order in which they first appear among the given paths |
| Pending.NonBlankStripped | FileRenamer.py:152 | definition of the list comprehension: each line stripped, blank ones dropped, in order; `NonBlankStrippedMembers` and `NonBlankStrippedSpec` state its meaning |
| Pending.ParsePaths | FileRenamer.py:151-152 | definition of the paste parse: strip the text, split it at line breaks, keep the stripped non-blank lines; `ParseIsNonBlankLines` and `ParsedPathsShape` state its meaning |
| Pending.KeepExisting | FileRenamer.py:154-158 | definition of the existence filter of the paste handler: the parsed paths in `onDisk`, in order; `KeepExistingMembers` states its meaning |
| Pending.NonBlankStrippedConcat | FileRenamer.py:152 | the list comprehension works line by line, so it distributes over concatenation |
| Pending.NonBlankStrippedCons | FileRenamer.py:152 | a blank line contributes nothing, and lines that strip alike contribute alike |
| Pending.ParseIgnoresLeadingSpace | FileRenamer.py:151-152 | leading whitespace of the pasted text never changes the parsed paths |
| Pending.ParseIgnoresTrailingSpace | FileRenamer.py:151-152 | trailing whitespace of the pasted text never changes the parsed paths |
| Pending.ParseIgnoresSpaceAppended | FileRenamer.py:151-152 | one whitespace character appended to the text (a line break included) leaves the parsed paths as they were |
| Pending.ParseIsNonBlankLines | FileRenamer.py:151-152 | the parsed paths are the non-blank lines of the text as pasted, each stripped, in input order; stripping the whole text first makes no difference |
| Pending.NonBlankStrippedMembers | FileRenamer.py:152 | a path is produced exactly when some line is not blank and strips to it |
| Pending.StrippedLineShape | FileRenamer.py:152 | stripping a non-blank line that holds no line break gives a non-empty, single-line path with no whitespace at either end |
| Pending.NonBlankStrippedSpec | FileRenamer.py:152 | every path kept from lines without line breaks has that shape |
| Pending.ParsedPathsShape | FileRenamer.py:151-152 | every parsed path has that shape, and a path is parsed exactly when it is a stripped non-blank line of the text |
| Pending.KeepExistingMembers | FileRenamer.py:154-159 | the existence filter keeps exactly the parsed paths that exist |
| Pending.PastedPathsMembers | FileRenamer.py:150-161 | the paste handler passes `add_files` exactly the stripped non-blank lines of the text that exist |
| RenamePass.NewName | FileRenamer.py:201-227 | definition of the new basename: None when the (possibly lowered) find text is not in the (possibly lowered) basename, otherwise `str.replace` or, ignoring case, the splice; the lemmas below state its meaning in each mode |
| RenamePass.SpliceFirst | FileRenamer.py:224-225 | definition of the case-insensitive splice at the index `find` gives in the lowered name; `SpliceFirstAt` and `IgnoreCaseName` state its meaning |
| RenamePass.CaseSensitiveMatch | FileRenamer.py:221 | case-sensitive: a file gets a new name exactly when the find text occurs in its basename |
| RenamePass.CaseSensitiveName | FileRenamer.py:227 | case-sensitive: the new name keeps the text before the first occurrence, puts the replace text in its place, and rewrites the rest by the same left-to-right scan |
| RenamePass.CaseSensitiveIdentity | FileRenamer.py:227 | case-sensitive: a replace text equal to the find text yields the same name |
| RenamePass.LoweredOccurrence | FileRenamer.py:202-203 | an occurrence in the lowered name is an occurrence ignoring case, at the same index, and back |
| RenamePass.IgnoreCaseMatch | FileRenamer.py:221 | ignoring case: a file gets a new name exactly when the find text occurs in its basename with case ignored |
| RenamePass.SpliceFirstAt | FileRenamer.py:224-225 | the splice position is a valid index, and the splice cuts the name there |
| RenamePass.IgnoreCaseName | FileRenamer.py:222-225 | ignoring case: only the first occurrence with case ignored is replaced; the characters before it and after it keep their original case, and the replace text goes in verbatim |
| RenamePass.IgnoreCaseIdentity | FileRenamer.py:222-225 | ignoring case: a replace text equal to the find text can change only the case of the name |
| RenamePass.NewNameHasNoSeparator | FileRenamer.py:222-227 | in both modes, a new name holds a '/' only if the replace text does |
| RenamePass.ExampleEveryOccurrence | FileRenamer.py:227 | case-sensitive, "ab_ab" with "ab" replaced by "X" gives "X_X": every occurrence is replaced |
| RenamePass.ExampleFirstOccurrenceIgnoringCase | FileRenamer.py:222-225 | ignoring case, "AB_ab" with "ab" replaced by "X" gives "X_ab": only the first occurrence is replaced, and the rest keeps its case |
| RenamePass.NewNames | FileRenamer.py:196-198 | one new-name decision per pending file |
| RenamePass.FileOutcome | FileRenamer.py:228-235 | definition of one file's fate: no match means no rename; a match means a rename to `join(dirname, new name)` that succeeds as the oracle says; `RenameStaysInDirectory` states its meaning |
| RenamePass.PassOutcomes | FileRenamer.py:196-235 | one outcome per pending file |
| RenamePass.PassOutcomesAt | FileRenamer.py:196-235 | each file's outcome depends only on that file, its new name and its own rename result |
| RenamePass.CountRenamed | FileRenamer.py:194-235 | definition of the `renamed` counter: the outcomes that are successful renames; `CountsAddUp`, `CountsUpdate` and `NothingRenamed` state its meaning |
| RenamePass.CountSkipped | FileRenamer.py:194-235 | definition of the `skipped` counter: the outcomes that are not successful renames; same lemmas |
| RenamePass.CountsAddUp | FileRenamer.py:194-235 | every file adds one to exactly one of `renamed` and `skipped` |
| RenamePass.CountsUpdate | FileRenamer.py:229-233 | changing one file's outcome changes each counter by that file's own contribution only |
| RenamePass.NothingRenamed | FileRenamer.py:229-235 | with no successful rename, `renamed` is 0 and every file is skipped |
| RenamePass.FailureIsolation | FileRenamer.py:229-233 | if one rename fails instead, every other file has the same outcome, and only that file moves from `renamed` to `skipped` |
| RenamePass.NoMatchNoRename | FileRenamer.py:234-235 | a file without a new name is skipped with no rename attempted; if no file matches, nothing is renamed and everything is skipped |
| RenamePass.RenameStaysInDirectory | FileRenamer.py:228-233 | a matched file's rename is attempted from its own path to the new name in the same directory, and counts as renamed exactly when it succeeds |
| RenamePass.UnchangedNameStillRenamed | FileRenamer.py:222-231 | in either mode, a matching file whose new name equals its basename is still renamed, onto a path with the same directory name and basename, and counted as renamed |
| RenamePass.IdentityReplaceStillRenamed | FileRenamer.py:227-231 | case-sensitive: with the replace text equal to the find text, every matching file rewrites to its own name and is still renamed and counted as renamed |
| RenamePass.ExampleUnchangedIgnoringCase | FileRenamer.py:222-225 | ignoring case, "aBc" with "b" replaced by "B" gives "aBc" again, so a self-rewrite also arises with a different replace text |
| RenamePass.RenameFiles | FileRenamer.py:194-235 | the loop produces the outcome of every file, in order; `renamed` and `skipped` count them, and they add up to the number of pending files |
| MainWindow.FileRenamer.constructor | FileRenamer.py:13 | the window starts with an empty pending list |
| MainWindow.FileRenamer.AddFiles | FileRenamer.py:169-174 | `add_files` appends the new arrivals to the old list and keeps it duplicate-free |
| MainWindow.FileRenamer.ClearList | FileRenamer.py:176-179 | `clear_list` empties the list |
| MainWindow.FileRenamer.ProcessPastedPaths | FileRenamer.py:150-161 | the paste handler adds the parsed paths that exist, in order, as `add_files` does |
| MainWindow.FileRenamer.ReplaceAll | FileRenamer.py:186-237 | an empty find text gives only the warning and leaves the list alone; otherwise every pending file goes through the pass, the report carries the outcomes and the two counters, which add up to the number of pending files, and the list ends empty |
| MainWindow.FileRenamer.ShowResult | FileRenamer.py:239-242 | `show_result` reports the counters and empties the list |

## Left out

- The Qt user interface: `initUI`, `toggle_advanced`, `load_stylesheet`, the dialog widgets,
  the list widget that mirrors `files_to_rename`, the message boxes, and the label that
  `update_stats` sets. `ShowResult` keeps the counters and drops the message text.
- `browse_files` and `browse_directory`. They only collect paths, from a file dialog or from
  `os.walk`, and pass them to `add_files`, which is modelled.
- The regular-expression branch of `replace_all` (FileRenamer.py:208-219). It relies on
  Python's `re` engine, which is not modelled.
- The file system. `os.path.exists` is a set of existing paths. `os.rename` is one success
  flag per pending file. The model does not track renamed files on disk, so it cannot see a
  rename that overwrites another pending file.
- The `print` of a missing pasted path (FileRenamer.py:159). It is console output only.
- PyStr.Lower: lowers ASCII `A`-`Z` only. Python's full Unicode `lower()` can change a
  text's length, and then the splice at FileRenamer.py:224-225 would use indices of the
  lowered name on the original one. Because the model's lowering keeps the length, that
  mismatch cannot arise in the model.
- PosixPath.Dirname: POSIX rules only (`posixpath`), with '/' as the only separator; the
  Windows rules of `ntpath` are not modelled.
- RenamePass.RenameStaysInDirectory: says nothing when the replace text holds a '/'. With a
  '/', `os.path.join` can move the file to another directory.
- `os.rename` raising anything other than `OSError`. A NUL character in the replace text
  makes `os.rename` raise `ValueError`, which FileRenamer.py:229-233 does not catch: the pass
  then stops midway and `show_result` never clears the list. The oracle only knows success
  and `OSError`, so the model always finishes the pass.
