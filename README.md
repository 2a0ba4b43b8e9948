# file-extractor, modelled in Dafny

file-extractor is a desktop tool (a Tauri back end in Rust, a React front
end in TypeScript). It collects a set of source files into one text file
under a "source" name. The user does three things:

1. types a source name, with suggestions from recent sources;
2. picks files, either from the open dialog or by scanning a folder into a
   checkbox tree;
3. generates the output file.

The output holds a header and, for each file, path and name markers
followed by the file's text or an error line. A helper script extracts a
cursor image from an animated cursor (`.ani`). On Windows, notifications
are shown by a chain of fallbacks.

This project models the core of that program and proves what it promises.
The modules are:

- `Wrappers`: `Option` and `Result`.
- `Strings`: JavaScript `trim`, ASCII lower-casing, `includes` and `lastIndexOf`, and Rust's string order.
- `Bytes`: a byte type and little-endian reads.
- `FileLists`: the "append what is not already there" merge used by two components.
- `FileTree`: the `FileNode` forest.
- `Scan`: `scan.rs`.
- `Settings`: `settings.rs`.
- `Generate`: `generate.rs`.
- `Notifications`: `windows.rs`.
- `AniToCur`: the `.ani` converter.
- `App`: `App.tsx`.
- `SourceNameStep`: `Step1SourceName.tsx`.
- `FileSelectionStep`: `Step2FileSelection.tsx`.
- `GenerateStep`: `Step3Generate.tsx`.
- `SelectionDialog`: `FileSelectionDialog.tsx`.
- `FileIcons`: `fileIcons.ts`.

Components that keep state become classes whose methods update fields.
Loops become methods with invariants, proved against specification
functions. Pure code becomes functions and lemmas. The filesystem, dialogs,
child processes and Tauri calls are replaced by parameters that stand for
what they answered.

## Model

| member | source | states |
|---|---|---|
| FileLists.KeepAbsent | src/App.tsx:99-103 | the files kept are exactly those of the incoming list that are not already selected; none when all are present |
| FileLists.KeepAbsentConcat | src/App.tsx:99-103 | the filter distributes over concatenation, so the kept files stay in their incoming order |
| FileLists.KeepAbsentSingle | src/App.tsx:99-103 | one incoming file is kept exactly when it is not already selected |
| FileLists.KeepAbsentFirst | src/components/Step2FileSelection.tsx:46-52 | the first file kept is the first incoming file that is not already selected |
| FileLists.MergeKeepsAndAppends | src/components/Step2FileSelection.tsx:45-49 | the merge keeps the old selection as a prefix, appends only new files, and its element set is the union; the new files of each leading part of the incoming list come before those of the rest, so they are appended in their given order |
| FileLists.MergeNoDuplicates | src/App.tsx:99-103 | merging two duplicate-free lists gives a duplicate-free list |
| FileLists.KeepAbsentNoDuplicates | src/components/Step2FileSelection.tsx:45-48 | the filter keeps a duplicate-free list duplicate-free |
| FileLists.MergeIdempotent | src/App.tsx:99-103 | confirming the same files twice changes nothing the second time |
| FileLists.NoDuplicatesCardinality | src/components/FileSelectionDialog.tsx:276-277 | a duplicate-free list has as many distinct elements as entries |
| FileTree.DescendantFilesAreSubtreeFiles | src/components/FileSelectionDialog.tsx:48-59 | a path is a descendant file of a node iff some file node of its subtree has that path |
| FileTree.ForestFilesAreForestFiles | src/components/FileSelectionDialog.tsx:31-45 | the same for a whole forest |
| FileTree.DirPathsAreSubtreeDirs | src/components/FileSelectionDialog.tsx:300-310 | a path is collected as a directory of a node iff a directory node of its subtree has it |
| FileTree.ForestDirPathsAreForestDirs | src/components/FileSelectionDialog.tsx:300-310 | the same for a forest |
| FileTree.SubtreeFilesInForest | src/components/FileSelectionDialog.tsx:31-59 | every descendant file of any node of the tree is among all file paths |
| FileTree.SubtreeFilesInNode | src/components/FileSelectionDialog.tsx:48-59 | a subtree's files are among its ancestor's files |
| FileTree.CollectFilePaths | src/components/FileSelectionDialog.tsx:31-45 | the recursive walk adds exactly the forest's file paths to the set |
| FileTree.CollectDirPaths | src/components/FileSelectionDialog.tsx:300-310 | the recursive walk adds exactly the forest's directory paths |
| SelectionDialog.CountSelected | src/components/FileSelectionDialog.tsx:126-140 | the number of selected descendants never exceeds the number of descendants |
| SelectionDialog.CountPositiveIff | src/components/FileSelectionDialog.tsx:135-140 | some descendant is counted iff some descendant is checked |
| SelectionDialog.CountFullIff | src/components/FileSelectionDialog.tsx:126-133 | all descendants are counted iff all are checked |
| SelectionDialog.CheckedIffAllCounted | src/components/FileSelectionDialog.tsx:126-133 | a directory shows checked iff it has files and all of them are checked |
| SelectionDialog.IndeterminateIff | src/components/FileSelectionDialog.tsx:135-140 | a directory is indeterminate iff some but not all of its files are checked |
| SelectionDialog.EmptyDirectoryNeitherState | src/components/FileSelectionDialog.tsx:126-140 | a directory without files is neither checked nor indeterminate |
| SelectionDialog.CheckedExcludesIndeterminate | src/components/FileSelectionDialog.tsx:126-140 | no node is both checked and indeterminate |
| SelectionDialog.ToggleExactlyDescendants | src/components/FileSelectionDialog.tsx:113-124 | a checkbox change sets exactly the node's descendant files to the new value and leaves every other path alone |
| SelectionDialog.ToggleOnThenOff | src/components/FileSelectionDialog.tsx:113-124 | checking then unchecking a node removes its files, and restores the old set iff none were checked |
| SelectionDialog.ToggleOnChecks | src/components/FileSelectionDialog.tsx:113-133 | after checking a non-empty directory it shows checked and not indeterminate |
| SelectionDialog.ToggleOffClears | src/components/FileSelectionDialog.tsx:113-140 | after unchecking a node it is neither checked nor indeterminate |
| SelectionDialog.SelectAllChecksEveryDirectory | src/components/FileSelectionDialog.tsx:142-144 | after "select all" every directory with files shows checked |
| SelectionDialog.ShownIffSubtreeMatches | src/components/FileSelectionDialog.tsx:160-171 | with a query, a node is shown iff its own name or some descendant's name contains it, ignoring case |
| SelectionDialog.AnyShownIffForestMatches | src/components/FileSelectionDialog.tsx:160-171 | some node of a forest is shown iff some node's name matches |
| SelectionDialog.TopLevelDirs | src/components/FileSelectionDialog.tsx:96-98 | the kept nodes are top-level directories of the tree, and every top-level directory is kept |
| SelectionDialog.TopLevelDirsConcat | src/components/FileSelectionDialog.tsx:96-98 | the directory filter distributes over concatenation, so directories keep their tree order |
| SelectionDialog.TopLevelDirsSingle | src/components/FileSelectionDialog.tsx:96-98 | one node is kept exactly when it is a directory |
| SelectionDialog.InitialExpansionIff | src/components/FileSelectionDialog.tsx:95-100 | a path is expanded after a scan exactly when it is the path of a directory node with fewer than two directory nodes before it in the tree |
| SelectionDialog.AppendFresh | src/components/FileSelectionDialog.tsx:259-274 | appending an absent path keeps a list duplicate-free and adds just that path |
| SelectionDialog.FilterToTree | src/components/FileSelectionDialog.tsx:259-274 | the confirmed list holds exactly the checked paths that are files of the tree, without repeats |
| SelectionDialog.Dialog.constructor | src/components/FileSelectionDialog.tsx:22-28 | the dialog starts loading, with an empty tree, no selection, nothing expanded and no query |
| SelectionDialog.Dialog.LoadTree | src/components/FileSelectionDialog.tsx:87-110 | a scan result replaces the tree and expands its first two top-level directories; a failure shows the Italian scan error; loading ends either way |
| SelectionDialog.Dialog.PreviousSelectionsEffect | src/components/FileSelectionDialog.tsx:81-85 | the stored list is loaded only when the tree is non-empty and the folder non-blank (and the list is non-empty); otherwise the checked set is unchanged |
| SelectionDialog.Dialog.Open | src/components/FileSelectionDialog.tsx:61-110 | a successful scan installs the tree and its initial expansion, and then a stored non-empty list for a non-blank folder is shown checked when the tree is non-empty, the checked set being kept otherwise; a failed scan gives the Italian scan error and leaves tree, expansion and checked set unchanged; loading ends |
| SelectionDialog.Dialog.LoadPreviousSelections | src/components/FileSelectionDialog.tsx:65-85 | stored selections replace the checked set only for a non-blank folder and a non-empty stored list |
| SelectionDialog.Dialog.HandleCheckboxChange | src/components/FileSelectionDialog.tsx:113-124 | the checked set becomes the toggle of the node's descendants |
| SelectionDialog.Dialog.HandleSelectAll | src/components/FileSelectionDialog.tsx:142-144 | every file of the tree is checked |
| SelectionDialog.Dialog.HandleSelectNone | src/components/FileSelectionDialog.tsx:146-148 | nothing is checked |
| SelectionDialog.Dialog.ToggleExpanded | src/components/FileSelectionDialog.tsx:150-158 | exactly the given folder flips between expanded and collapsed |
| SelectionDialog.Dialog.HandleExpandAll | src/components/FileSelectionDialog.tsx:300-310 | every directory of the tree is expanded |
| SelectionDialog.Dialog.HandleCollapseAll | src/components/FileSelectionDialog.tsx:317 | no directory is expanded |
| SelectionDialog.Dialog.SetSearchQuery | src/components/FileSelectionDialog.tsx:160-171 | the query is stored as typed |
| SelectionDialog.Dialog.HandleConfirm | src/components/FileSelectionDialog.tsx:259-277 | with nothing selected it warns; otherwise it confirms the checked files of the tree, without repeats, as many as the count shown, saved under the trimmed folder |
| Scan.DsStoreEntryIsDead | src-tauri/src/commands/scan.rs:15-49 | a directory is ignored iff its lower-cased name is listed, and the mixed-case ".DS_Store" entry can never match |
| Scan.ScanDirectoryRecursive | src-tauri/src/commands/scan.rs:93-186 | the walk produces exactly the forest the shaping rules define |
| Scan.HeightBound | src-tauri/src/commands/scan.rs:100-102 | a forest is no taller than a bound that every member respects |
| Scan.ScanDepthBound | src-tauri/src/commands/scan.rs:100-102 | at or beyond the depth limit nothing is produced, and below it the tree is at most limit minus depth levels tall |
| Scan.ScanEntriesDepthBound | src-tauri/src/commands/scan.rs:119-182 | the entries of one directory respect the same height bound |
| Scan.HeightOfMember | src-tauri/src/commands/scan.rs:165-182 | each member's children are one level lower than the forest |
| Scan.ScanShape | src-tauri/src/commands/scan.rs:137-182 | every produced node is well shaped: files have no children, no directory is on the ignore list, and a name starting with '.' appears only as the path that stands in for a non-UTF-8 name |
| Scan.ScanEntriesShape | src-tauri/src/commands/scan.rs:137-182 | the same for the entries of one directory |
| Scan.ValidateDirectoryPath | src-tauri/src/commands/scan.rs:52-70 | a missing path and a non-directory give their own errors; success iff it is a directory that canonicalises |
| Scan.CompareStringsNotGreater | src-tauri/src/commands/scan.rs:82-88 | the byte-wise comparison says "not greater" iff the strings are in lexicographic order |
| Scan.RootLessEqTotal | src-tauri/src/commands/scan.rs:82-88 | the root order (directories first, then by lower-cased name) is total |
| Scan.RootLessEqTransitive | src-tauri/src/commands/scan.rs:82-88 | the root order is transitive |
| Scan.SortRootNodes | src-tauri/src/commands/scan.rs:82-88 | the root array ends up sorted by the root order and is a permutation of what it held |
| Scan.SwapStep | src-tauri/src/commands/scan.rs:82-88 | one swap of an insertion step keeps the partial order |
| Scan.InsertDone | src-tauri/src/commands/scan.rs:82-88 | an insertion that stops leaves the prefix sorted |
| Scan.InsertLast | src-tauri/src/commands/scan.rs:82-88 | inserting the next element keeps the prefix sorted and the contents permuted |
| Scan.ScanDirectory | src-tauri/src/commands/scan.rs:73-91 | validation errors are passed through; otherwise the result is the sorted permutation of the scanned forest |
| Settings.LoadSettings | src-tauri/src/settings.rs:13-53 | a missing file gives the defaults (dark mode, no recent sources, no folder), a parsed one its content, anything else an error |
| Settings.LoadSelections | src-tauri/src/settings.rs:67-84 | a missing file or key gives no files, a parsed file the stored list; the result is an error exactly when the file is neither missing nor parsed |
| Settings.SaveEntries | src-tauri/src/settings.rs:104-120 | after saving, the key holds the new list if kept, every other kept key its old list, and at most twenty remain |
| Settings.NoEvictionUnderCap | src-tauri/src/settings.rs:110-120 | under the cap the history is exactly the old one with the key replaced |
| Settings.SmallestNewKeyIsEvicted | src-tauri/src/settings.rs:109-120 | saving a new key that sorts first into a full history evicts that key at once |
| Settings.MinKey | src-tauri/src/settings.rs:112-116 | the key found is in the set and no key sorts before it |
| Settings.SmallestKeys | src-tauri/src/settings.rs:112-116 | the keys taken are the requested number of smallest keys, each sorting before every kept key |
| Settings.SaveSelections | src-tauri/src/settings.rs:86-129 | directory and read failures are errors; otherwise the written map is the old one, or an empty one if it did not parse, with the entry replaced and the smallest keys beyond twenty removed |
| Settings.Sources | src-tauri/src/settings.rs:109 | the sources of an age-ordered history are its entries' sources, in order |
| Settings.Without | src-tauri/src/settings.rs:104-107 | removing a source keeps exactly the entries of the other sources |
| Settings.Lookup | src-tauri/src/settings.rs:67-84 | a source is found iff it has an entry |
| Settings.SaveRecent | src-tauri/src/settings.rs:104-120 | the corrected save puts the source at the newest end and keeps the newest twenty entries |
| Settings.SaveRecentKeepsSaved | src-tauri/src/settings.rs:104-120 | after the corrected save, loading the source gives back the list just saved |
| Settings.SaveRecentKeepsOthers | src-tauri/src/settings.rs:104-120 | any other source that survives the corrected save keeps its list |
| Settings.SaveRecentDistinct | src-tauri/src/settings.rs:89-107 | the corrected history keeps one entry per source, like the map |
| Settings.SaveRecentSources | src-tauri/src/settings.rs:104-120 | after a save the saved source is the newest entry, and every source kept was either just saved or already in the history |
| Settings.SaveRecentKeepsFreshSmallest | src-tauri/src/settings.rs:109-120 | in the case where the key-ordered cap drops the new key, the corrected save keeps it and stays at twenty |
| Generate.Latin1Decode | src-tauri/src/commands/generate.rs:123-134 | each byte becomes the character with the same code, and the length is kept |
| Generate.Latin1Encode | src-tauri/src/commands/generate.rs:123-134 | the inverse of the decoding keeps the length |
| Generate.Latin1RoundTrip | src-tauri/src/commands/generate.rs:123-134 | decoding then encoding gives the bytes back |
| Generate.Latin1RoundTripText | src-tauri/src/commands/generate.rs:123-134 | encoding then decoding a Latin-1 text gives it back |
| Generate.ReadFileWithFallback | src-tauri/src/commands/generate.rs:95-138 | files over 50 MiB are rejected as too large; a file within the limit that is valid UTF-8 is returned as read; one that is invalid UTF-8 and whose bytes read within the limit is returned Latin-1 decoded; Latin-1 decoding is used only on invalid data; other read errors are errors |
| Generate.ReadContentBounded | src-tauri/src/commands/generate.rs:102-132 | whatever is returned is at most 50 MiB of text |
| Generate.FileName | src-tauri/src/commands/generate.rs:52-56 | the file name is non-empty, not "..", and holds no separator |
| Generate.FileNameIsSuffix | src-tauri/src/commands/generate.rs:52-56 | the file name is the last component of the path once trailing separators are dropped (the suffix after the last separator); there is none exactly when that component is empty or ".." |
| Generate.DriveLetterKept | src-tauri/src/commands/generate.rs:52-56 | drive letters are not interpreted: "C:\\" names "C:" and "C:foo" names itself (the gap listed under "Left out") |
| Generate.LastComponentUnique | src-tauri/src/commands/generate.rs:52-56 | a trimmed path has only one last component |
| Generate.ParentPrecedesName | src-tauri/src/commands/generate.rs:81-91 | when there is a file name there is a parent; it is a prefix of the path and does not overlap the name |
| Generate.Rule | src-tauri/src/commands/generate.rs:35-42 | the rule line is forty '=' characters |
| Generate.OutputExtends | src-tauri/src/commands/generate.rs:45-79 | the output for a prefix of the paths is a prefix of the output for all of them |
| Generate.OutputStep | src-tauri/src/commands/generate.rs:45-79 | processing one more file only appends to what was already written |
| Generate.OutputLayout | src-tauri/src/commands/generate.rs:35-79 | the output starts with the header, and each file's section follows the sections of the files before it, in input order |
| Generate.FailedReadIsRecorded | src-tauri/src/commands/generate.rs:60-70 | an unreadable file contributes its markers and the "[Error: unable to read file - e]" line |
| Generate.SuccessMessageExample | src-tauri/src/commands/generate.rs:81-91 | the success message names the output file and the folder holding it |
| Generate.SuccessMessageDefault | src-tauri/src/commands/generate.rs:81-91 | for an empty path or one of separators only, the message says "output.txt" and an empty folder |
| Generate.NameAndFolder | src-tauri/src/commands/generate.rs:81-91 | for a file name joined to a folder that is not a drive root, the message's name is that file name and its folder is that folder |
| Generate.NoComponent | src-tauri/src/commands/generate.rs:84-91 | a path of separators only has neither a file name nor a parent |
| Generate.TrimmedEmptyHasNoComponent | src-tauri/src/commands/generate.rs:84-91 | a path that is empty once trailing separators are dropped has neither a file name nor a parent |
| Generate.DriveRootParent | src-tauri/src/commands/generate.rs:87-90 | the folder of a file at a drive root such as "C:\\out.txt" is the root "C:\\" with its separator |
| Generate.WriteSection | src-tauri/src/commands/generate.rs:45-79 | one loop iteration appends exactly that file's section |
| Generate.GenerateOutput | src-tauri/src/commands/generate.rs:12-92 | a create failure is reported and nothing is written; otherwise the written text is the whole layout and the result is the success message |
| Notifications.Escape | src-tauri/src/notifications/windows.rs:140-163 | an escape is '%' followed by two hex digits |
| Notifications.EncodeChar | src-tauri/src/notifications/windows.rs:140-163 | the nineteen reserved characters are escaped and every other character is kept |
| Notifications.Normalize | src-tauri/src/notifications/windows.rs:137 | every backslash becomes '/', and nothing else changes |
| Notifications.EncodeUri | src-tauri/src/notifications/windows.rs:135-166 | the loop builds "file:///" followed by the encoding of the normalised path |
| Notifications.EncodedHasNoBackslash | src-tauri/src/notifications/windows.rs:137-163 | encoding adds no backslash |
| Notifications.UriHasNoBackslash | src-tauri/src/notifications/windows.rs:135-166 | the icon URI holds no backslash |
| Notifications.HexRoundTrip | src-tauri/src/notifications/windows.rs:140-163 | reading back a hex digit gives its value |
| Notifications.DecodeEscape | src-tauri/src/notifications/windows.rs:140-163 | an escape decodes back to its character |
| Notifications.DecodeLiteral | src-tauri/src/notifications/windows.rs:140-163 | a kept character decodes to itself |
| Notifications.DecodeEncode | src-tauri/src/notifications/windows.rs:140-163 | percent-decoding undoes the encoding |
| Notifications.EncodeInjective | src-tauri/src/notifications/windows.rs:140-163 | different paths never give the same encoding |
| Notifications.UriDecodesToNormalizedPath | src-tauri/src/notifications/windows.rs:135-166 | decoding the URI after its prefix gives the normalised path back |
| Notifications.DoubleQuotesRoundTrip | src-tauri/src/notifications/windows.rs:257 | doubling single quotes yields a well-quoted text that undoubles to the original |
| Notifications.ReplaceKeepsQuotesDoubled | src-tauri/src/notifications/windows.rs:352-359 | replacing another character by a space keeps the quoting intact |
| Notifications.ReplaceRemoves | src-tauri/src/notifications/windows.rs:352-359 | after replacing a character by a space, none of it is left |
| Notifications.ReplaceKeepsAbsent | src-tauri/src/notifications/windows.rs:352-359 | a replacement introduces no character other than the space |
| Notifications.BalloonTextIsOneSafeLine | src-tauri/src/notifications/windows.rs:352-359 | balloon text has no line breaks and its quotes are doubled |
| Notifications.ReplaceCharAppend | src-tauri/src/notifications/windows.rs:352-359 | replacement works piecewise over concatenation |
| Notifications.ShowWindowsNotification | src-tauri/src/notifications/windows.rs:119-386 | success iff the toast, or the Tauri API with an icon, or the balloon shows; each channel is tried iff the earlier ones failed; total failure gives "All notification methods failed" |
| Notifications.ShowNotificationElsewhere | src-tauri/src/notifications/windows.rs:388-395 | off Windows the call always succeeds |
| AniToCur.Find | convert_ani_to_cur_working.py:23-25 | `find` returns the first magic position at or after the start, or -1 when there is none |
| AniToCur.OccurrencesSkip | convert_ani_to_cur_working.py:21-27 | the search skips positions without the magic and records the first one found |
| AniToCur.OccurrencesNone | convert_ani_to_cur_working.py:21-27 | with no magic left the search records nothing |
| AniToCur.FindAll | convert_ani_to_cur_working.py:18-36 | the search loop collects every occurrence, in order |
| AniToCur.Tagged | convert_ani_to_cur_working.py:26-35 | tagging positions keeps their number |
| AniToCur.CandidatesFromBounds | convert_ani_to_cur_working.py:39 | the candidates are strictly ascending and start at the scan start |
| AniToCur.CandidatesAreSortedFinds | convert_ani_to_cur_working.py:18-39 | the ordered candidates are exactly the cursor finds tagged as cursor plus the icon finds tagged as icon |
| AniToCur.MagicsExclusive | convert_ani_to_cur_working.py:15-16 | no position holds both magics |
| AniToCur.MaxImageSize | convert_ani_to_cur_working.py:67-77 | the result is below 10 MiB, at least every trusted directory size, and one of them or 0 |
| AniToCur.ExtractLength | convert_ani_to_cur_working.py:80-83 | the extracted length covers the header and directory and stays within the data |
| AniToCur.Extracted | convert_ani_to_cur_working.py:83-87 | the extracted bytes have that length |
| AniToCur.FirstExtracted | convert_ani_to_cur_working.py:42-93 | nothing is extracted iff no candidate passes the checks |
| AniToCur.ExtractedIsCursor | convert_ani_to_cur_working.py:83-89 | the result is the data at some candidate, with an icon's type field patched to "cursor" |
| AniToCur.CandidatesHaveMagic | convert_ani_to_cur_working.py:18-36 | every candidate carries the magic its tag says |
| AniToCur.ExtractResultShape | convert_ani_to_cur_working.py:9-93 | no result iff no magic position is plausible; a result is at least 22 bytes long and has the cursor type field |
| AniToCur.CandidatesFromCover | convert_ani_to_cur_working.py:18-39 | every magic position in range is a candidate, and every candidate is in range |
| AniToCur.MaxImageSizeLoop | convert_ani_to_cur_working.py:70-77 | the loop computes the trusted maximum |
| AniToCur.DimensionsAlwaysPlausible | convert_ani_to_cur_working.py:57-63 | the width and height check can never reject |
| AniToCur.TryCandidate | convert_ani_to_cur_working.py:43-89 | one candidate yields its extraction iff it passes the checks |
| AniToCur.ExtractAt | convert_ani_to_cur_working.py:67-89 | a candidate that passed the checks yields the slice of the estimated size, patched for an icon |
| AniToCur.ExtractedTakenAt | convert_ani_to_cur_working.py:83-89 | the bytes taken start with the cursor signature and are the data from there on |
| AniToCur.SortByPos | convert_ani_to_cur_working.py:38-39 | the candidates come out ordered by position and are a permutation of those given |
| AniToCur.InsertByPos | convert_ani_to_cur_working.py:38-39 | inserting one candidate into a list ordered by position keeps it ordered and adds exactly that candidate |
| AniToCur.SortedUnique | convert_ani_to_cur_working.py:38-39 | a strictly ascending list is the only ordering by position of its elements, so the sort's result does not depend on the method |
| AniToCur.SortedFindsAreCandidates | convert_ani_to_cur_working.py:18-39 | sorting the cursor finds and icon finds together gives exactly the ordered candidates |
| AniToCur.ExtractCurFromAni | convert_ani_to_cur_working.py:9-93 | the procedure returns exactly the first plausible extraction |
| AniToCur.ConvertWrites | convert_ani_to_cur_working.py:95-105 | a file is written iff there is a result of at least six bytes |
| AniToCur.ConvertWritesEveryFind | convert_ani_to_cur_working.py:95-105 | every extraction gets written, so the length guard never refuses one |
| Bytes.U16LE | convert_ani_to_cur_working.py:48 | a 16-bit little-endian read is below 65536 |
| Bytes.U32LE | convert_ani_to_cur_working.py:75 | a 32-bit little-endian read is below 2^32 |
| App.MergedSettings | src/App.tsx:36-52 | each field sent is the update's value when provided, otherwise the current value, with dark mode on |
| App.RecentAfter | src/App.tsx:54-62 | a new non-blank trimmed name goes in front of the first nine old entries; otherwise the list is unchanged |
| App.RecentAfterBounded | src/App.tsx:58-60 | a recorded name leaves at most ten entries |
| App.RecentAfterNoDuplicates | src/App.tsx:58-60 | a duplicate-free list stays duplicate-free |
| App.RecentAfterIdempotent | src/App.tsx:54-62 | typing the same name again changes nothing, and a non-blank name ends up in the list |
| App.AppState.constructor | src/App.tsx:17-21 | everything starts empty, with no folder being scanned |
| App.AppState.ApplyLoadedSettings | src/App.tsx:23-30 | loaded settings set the recent sources and the last folder; a failure changes nothing |
| App.AppState.UpdateSettings | src/App.tsx:36-52 | sends the merged settings and copies the provided list and folder into the state |
| App.AppState.HandleSourceNameChange | src/App.tsx:54-62 | the name is always taken; the settings are sent iff the trimmed name is new and non-blank |
| App.AppState.HandleLastFolderChange | src/App.tsx:144 | the folder is stored and sent with the current recent sources |
| App.AppState.HandleScanFolder | src/App.tsx:64-65 | the selection view opens on the folder |
| App.AppState.HandleCloseSelection | src/App.tsx:82-83 | the selection view closes |
| App.AppState.HandleConfirmSelection | src/App.tsx:99-103 | confirmed files not yet selected are appended in order, and the view closes |
| App.AppState.SetSelectedFiles | src/App.tsx:99-103 | the selection becomes the given list |
| App.AppState.OnGenerateSuccess | src/App.tsx:152-154 | a successful generation clears the selection |
| SourceNameStep.FilteredSuggestions | src/components/Step1SourceName.tsx:37-39 | a recent source is suggested iff its lower-cased text contains the lower-cased name; never more than the recent list |
| SourceNameStep.FilterConcat | src/components/Step1SourceName.tsx:37-39 | filtering keeps the original order |
| SourceNameStep.EmptyNameSuggestsAll | src/components/Step1SourceName.tsx:37-39 | an empty name suggests every recent source |
| SourceNameStep.EmptyFieldShowsAll | src/components/Step1SourceName.tsx:37-39 | with an empty name there are suggestions iff there are recent sources |
| SourceNameStep.SourceNameField.constructor | src/components/Step1SourceName.tsx:15 | suggestions start hidden |
| SourceNameStep.SourceNameField.HandleSelect | src/components/Step1SourceName.tsx:32-35 | choosing a suggestion sets the name and hides the dropdown |
| SourceNameStep.SourceNameField.HandleChange | src/components/Step1SourceName.tsx:51-54 | typing reports the text, shows the list, and the dropdown is visible iff the text has suggestions |
| SourceNameStep.SourceNameField.HandleFocus | src/components/Step1SourceName.tsx:55 | focus shows the list; the dropdown is visible iff there are suggestions |
| SourceNameStep.SourceNameField.HandleMouseDown | src/components/Step1SourceName.tsx:18-30 | a click outside the field hides the list, and a click inside leaves it as it was |
| Strings.LastSeparator | src/components/Step2FileSelection.tsx:79-81 | the index is the last '/' or '\\', or -1 when there is none |
| FileSelectionStep.BaseName | src/components/Step2FileSelection.tsx:101-104 | a base name holds no separator |
| FileSelectionStep.SplitRoundTrip | src/components/Step2FileSelection.tsx:79-83 | folder, separator and base name put back together give the path |
| FileSelectionStep.NewLastFolder | src/components/Step2FileSelection.tsx:51-60 | the last folder is updated iff the first new file has a separator, and then it is the text before the last separator |
| FileSelectionStep.AddFiles | src/components/Step2FileSelection.tsx:38-65 | a cancelled dialog changes nothing; otherwise the selection is merged and the last folder comes from the first new file |
| FileSelectionStep.AddFilesFirstNewFolder | src/components/Step2FileSelection.tsx:46-60 | the remembered folder is that of the first picked path not already selected; when that path has no separator, no folder is reported and the last folder stays as it was |
| FileSelectionStep.AddFilesProperties | src/components/Step2FileSelection.tsx:45-60 | the old selection stays a prefix, the element set is the union, and adding only known files changes nothing |
| FileSelectionStep.ClearSelection | src/components/Step2FileSelection.tsx:67-74 | clearing empties the selection and the preview shows the placeholder |
| FileSelectionStep.FolderToScan | src/components/Step2FileSelection.tsx:21-36 | a folder is scanned iff one is picked and it is non-empty |
| FileSelectionStep.FindFolder | src/components/Step2FileSelection.tsx:85-88 | the index is of the folder's group, or -1 iff no group has that folder |
| FileSelectionStep.Folders | src/components/Step2FileSelection.tsx:76-89 | the group folders in group order |
| FileSelectionStep.FirstSeen | src/components/Step2FileSelection.tsx:76-89 | first occurrences keep every distinct element |
| FileSelectionStep.FolderList | src/components/Step2FileSelection.tsx:78-82 | each file's folder, in file order |
| FileSelectionStep.AddToGroupFolders | src/components/Step2FileSelection.tsx:85-88 | adding a file creates a new group at the end only for an unseen folder |
| FileSelectionStep.GroupsInFirstSeenOrder | src/components/Step2FileSelection.tsx:76-89 | groups appear in the order their folders are first seen |
| FileSelectionStep.GroupsDistinct | src/components/Step2FileSelection.tsx:76-89 | no folder has two groups |
| FileSelectionStep.NamesInAbsent | src/components/Step2FileSelection.tsx:76-89 | a folder no file is in has no names |
| FileSelectionStep.GroupsHoldTheirNames | src/components/Step2FileSelection.tsx:76-89 | each group holds exactly the names of its folder's files, in order |
| FileSelectionStep.TotalNamesUpdate | src/components/Step2FileSelection.tsx:85-88 | replacing a group changes the total by the difference of the name counts |
| FileSelectionStep.GroupsCountEveryFile | src/components/Step2FileSelection.tsx:76-89 | the groups hold as many names as there are files |
| FileSelectionStep.MoreFolders | src/components/Step2FileSelection.tsx:95-98 | the "more folders" line uses the singular ending 'a' iff exactly one folder is hidden |
| FileSelectionStep.PreviewStartsWithCount | src/components/Step2FileSelection.tsx:91 | a non-empty preview starts with the file count header |
| FileSelectionStep.GroupByFolder | src/components/Step2FileSelection.tsx:76-89 | the grouping loop builds exactly the specified groups |
| FileSelectionStep.AppendGroup | src/components/Step2FileSelection.tsx:94-118 | one folder iteration appends that group's lines |
| FileSelectionStep.FilesPreview | src/components/Step2FileSelection.tsx:71-121 | the preview loop builds exactly the specified text |
| FileSelectionStep.AppendFolders | src/components/Step2FileSelection.tsx:91-120 | the folder loop appends the first two groups, then the count of the folders left, singular for one |
| GenerateStep.UnderscoreRuns | src/components/Step3Generate.tsx:32 | the replacement holds no white space and is never longer than the name |
| GenerateStep.UnderscoreRunsCollapse | src/components/Step3Generate.tsx:32 | a whole run of white space between two other parts becomes exactly one underscore, and the parts on either side are replaced on their own |
| GenerateStep.SkipWhitespaceUnique | src/components/Step3Generate.tsx:32 | the white space skipped from a position is the whole run there: what follows does not start with white space |
| GenerateStep.UnderscoreRunsKeepsLetters | src/components/Step3Generate.tsx:32 | apart from the underscores it adds, the replacement keeps every non-space character, in order |
| GenerateStep.UnderscoreRunsIdentity | src/components/Step3Generate.tsx:32 | a name without white space is left as it is |
| GenerateStep.UnderscoreRunsIdempotent | src/components/Step3Generate.tsx:32 | replacing twice is replacing once |
| GenerateStep.DefaultFileName | src/components/Step3Generate.tsx:32 | the proposed name ends in "_output.txt" and holds no white space |
| GenerateStep.DefaultFileNameCollapses | src/components/Step3Generate.tsx:32 | the proposed name for a source with a run of white space is the two sides with one underscore between them, then "_output.txt" |
| GenerateStep.DefaultFileNameExample | src/components/Step3Generate.tsx:32 | "a  b" is proposed as "a_b_output.txt" |
| GenerateStep.ButtonEnabledIff | src/components/Step3Generate.tsx:68 | the button is enabled iff nothing runs, the name is not all white space, and files are selected |
| GenerateStep.GenerateButton.constructor | src/components/Step3Generate.tsx:17 | nothing is generating at first |
| GenerateStep.GenerateButton.HandleGenerate | src/components/Step3Generate.tsx:19-59 | a blank name warns first, then an empty list; otherwise the dialog proposes the default name; a chosen path invokes the command with the trimmed name; the outcome is notified; `generating` is false after the try |
| GenerateStep.ClickEnabledButton | src/components/Step3Generate.tsx:19-68 | a click on an enabled button leaves `generating` false and invokes the command iff a path was chosen |
| FileIcons.LastSegment | src/utils/fileIcons.ts:2 | the segment is the suffix after the last '.', or the whole name, and holds no '.' |
| FileIcons.Extension | src/utils/fileIcons.ts:2 | the extension is the lower-cased last segment |
| FileIcons.GetFileIconAsWritten | src/utils/fileIcons.ts:1-26 | the lookup gives an inherited, non-string member exactly for an absent key named like an inherited member |
| FileIcons.InheritedNamesReturnNonString | src/utils/fileIcons.ts:25 | every name whose extension is "constructor" or "__proto__" (such as "x.constructor") yields the inherited member of that name, not an icon |
| FileIcons.GetFileIcon | src/utils/fileIcons.ts:1-26 | a known extension gets its table icon, anything else the default |
| FileIcons.IconIsTableIconOrDefault | src/utils/fileIcons.ts:4-25 | the result is always one of the table's icons or the default |
| FileIcons.CorrectedConstructorGetsDefault | src/utils/fileIcons.ts:25 | with the corrected lookup "x.constructor" gets the default icon |
| FileIcons.CorrectedAgreesElsewhere | src/utils/fileIcons.ts:1-26 | outside the two inherited names, the code and the corrected lookup agree |
| FileIcons.LastIndexOfLower | src/utils/fileIcons.ts:2 | lower-casing does not move the last '.' |
| FileIcons.IconIgnoresCase | src/utils/fileIcons.ts:2 | a name and its lower-cased form get the same icon |
| FileIcons.UpperCaseNameExample | src/utils/fileIcons.ts:2-17 | "MAIN.RS" gets the Rust icon |
| FileIcons.TrailingDotExample | src/utils/fileIcons.ts:2-25 | a name ending in '.' gets the default icon |
| FileIcons.NoDotExample | src/utils/fileIcons.ts:2-25 | a dot-less name is looked up whole |

## Left out

- File-system, dialog, process and Tauri calls: `read_dir`, `canonicalize`, `metadata`, `File::create` and write, the open and save dialogs, `powershell`, `invoke`. Each is a parameter holding the answer it would give.
- Write errors during generation other than the create failure, and the `Failed to write` and `Failed to serialize` errors of `save_selections`, because they are I/O failures.
- The `GENERATION_RUNNING` flag and its scope guard in `generate.rs`, because they exist only to prevent concurrent runs.
- React re-rendering, effects' timing, window resizing, styling and the `Notification.tsx` and `TitleBar.tsx` components, because they are presentation.
- The Windows icon conversion and registration code in `windows.rs` (PNG conversion, icon file search, registry writes), because it is I/O on image bytes and the registry.
- The toast XML template: title and body are inserted without XML escaping, so text with '&' or '<' would make the XML invalid. The toast's outcome is a parameter, so this is not modelled.
- Strings.Lower: lower-cases the ASCII letters only; JavaScript `toLowerCase` and Rust `to_lowercase` also fold non-ASCII letters.
- Scan.SortRootNodes: does not state that equal elements keep their order (Rust's `sort_by` is stable). It states sorted and a permutation.
- SelectionDialog.FilterToTree: returns the checked files in some order without repeats; JavaScript `Set` iteration order (insertion order) is not modelled.
- Generate.FileName: models `Path::file_name` for paths made of '\\'/'/' separators and plain components; "." components and all Windows prefixes, drive letters included, are not interpreted, so `FileName("C:\\")` is `Some("C:")` and `FileName("C:foo")` is `Some("C:foo")` where Rust on Windows gives no name and "foo".
- Generate.Parent: a drive letter followed by a separator ("C:\\") is kept as the root; drive-relative paths ("C:x"), a bare "C:\\", UNC and verbatim prefixes are not interpreted as Rust's `Path::parent` does on Windows.
- Generate.SuccessMessage: inherits the prefix limits of `Generate.Parent` and `Generate.FileName` (for an output path of "C:\\" the message names "C:" rather than "output.txt"); `to_str` never fails because strings are sequences of characters.
- AniToCur.ExtractCurFromAni: the data is a parameter (the file read is I/O), and the `except: continue` catches nothing here because every slice access is guarded.
- The early `break` in the image-size loop of the converter never fires, because the directory was checked to fit; the model omits it.
- SourceNameStep.SourceNameField: the recent-source list it reads is a prop; `App.AppState.HandleSourceNameChange` models how the parent updates it.
- The settings history stores an unordered map on disk. The age-ordered history in `Settings` is the corrected design, and no other operation of the program reads it.

## Findings

| source | as written | input that shows it | evidently intended | confidence | as-written member | corrected member |
|---|---|---|---|---|---|---|
| src/utils/fileIcons.ts:25 | `icons[ext]` on a plain object also finds inherited members, so the extensions "constructor" and "__proto__" return a function or an object instead of an icon | "x.constructor" | an unknown extension gets '📄' | not executed | FileIcons.InheritedNamesReturnNonString | FileIcons.CorrectedConstructorGetsDefault |
| src-tauri/src/settings.rs:109-120 | the cap removes the keys that sort first in the `BTreeMap`, not the oldest sources as the comment at line 109 says | a history of twenty folders all sorting after "A:\a"; saving "A:\a" drops it at once | keep the twenty most recently saved sources | not executed | Settings.SmallestNewKeyIsEvicted | Settings.SaveRecentKeepsFreshSmallest |
