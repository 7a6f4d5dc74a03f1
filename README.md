# Editing sessions of the Jellyfin `.strm` generator and the `.stmr` file creator

Both programs are Tkinter desktop tools. Each one keeps a small in-memory
editing session and writes it out as a folder of small text files:

- an ordered list of file names (`files`);
- a dict from name to text (`file_contents`);
- the name being edited (`current_file`);
- an output folder (`current_folder`);
- in the Jellyfin generator, one button per listed name (`file_buttons`),
  each selecting its name when clicked.

The text widget is modelled as a string field `editor`. This project models
that session and the operations on it:

- **Jellyfin generator (`jellyfin_strm_generator.py`):**
  - a movie gets the single name `movie.strm`;
  - a series gets `SxxEyy.strm` names built from a season number and an
    episode count typed into dialogs;
  - selecting a file flushes the editor into the file being left;
  - a confirmed reset clears the session and destroys the file buttons;
  - a confirmed change of content type clears the session but leaves the
    old buttons clickable (see Findings);
  - generation warns about blank files, computes a progress ratio over the
    number of listed names, and writes every dict entry into the folder.
- **`.stmr` creator (`stmr_file_creator.py`):**
  - starts with `untitled.stmr`;
  - adds names, appending the `.stmr` extension when it is missing;
  - refuses duplicates;
  - deletes the selected name, never the last one;
  - writes every dict entry with no blank check.

Dialogs are inputs to the operations:

- a string answer, or `None` when cancelled;
- a yes/no answer as a `bool`;
- a chosen folder, where `""` means cancelled;
- a dialog closed with its window button is a method of its own.

The filesystem is an abstract `Disk`: a set of folders and a map from
(folder, name) to text. Folder creation can be made to fail with a flag in
`Faults`, and `Faults.failAt` makes the write with that index raise.

Modules:

- `Wrappers` (`wrappers.dfy`): `Option`.
- `Text` (`text.dfy`):
  - `str.strip`, `str.lower` and `str.endswith`;
  - `str(n)` and the `:02d` format;
  - `int()` on an entry.
- `Collections` (`collections.dfy`):
  - `list.remove`;
  - an insertion-ordered dict (`Dict`: key order plus key/value map, with
    invariant `Wf`).
- `Naming` (`naming.dfy`): movie and episode file names.
- `FileSystem` (`filesystem.dfy`):
  - the disk;
  - the write loop (`WriteEntries`, proved against `Written`);
  - the whole generate step of both programs as a function (`Batch`),
    with lemmas for each of its outcomes.
- `Jellyfin` (`jellyfin.dfy`): the class `JellyfinSession`, one method per
  callback.
- `Stmr` (`stmr.dfy`): the class `StmrFileCreator`, one method per callback.
- `Scenarios` (`scenarios.dfy`): whole sessions driven through the callbacks
  with concrete inputs.

## Model

| member | source | states |
|---|---|---|
| Text.TrimStart | jellyfin_strm_generator.py:523 | the result is a suffix of the input; everything dropped is whitespace; it does not start with whitespace |
| Text.TrimEnd | jellyfin_strm_generator.py:523 | the result is a prefix of the input; everything dropped is whitespace; it does not end with whitespace |
| Text.Strip | jellyfin_strm_generator.py:523 | `s.strip()` is no longer than `s` and is empty or neither starts nor ends with whitespace |
| Text.TrimStartSpaces | jellyfin_strm_generator.py:523 | leading whitespace in front of a text that does not start with whitespace is removed exactly |
| Text.TrimEndSpaces | jellyfin_strm_generator.py:523 | trailing whitespace after a text that does not end with whitespace is removed exactly |
| Text.StripPadded | jellyfin_strm_generator.py:523 | stripping a text padded with whitespace on both sides gives back exactly the text |
| Text.StripEmptyIffBlank | jellyfin_strm_generator.py:851 | `s.strip()` is empty exactly when every character of `s` is whitespace |
| Text.StripIdempotent | jellyfin_strm_generator.py:523 | stripping twice is stripping once |
| Text.Lower | stmr_file_creator.py:180 | lower-casing keeps the length |
| Text.EndsWith | stmr_file_creator.py:180 | `s.endswith(x)` holds exactly when `s` is some prefix followed by `x` |
| Text.Digits | jellyfin_strm_generator.py:711 | `str(n)` is a non-empty run of digits, with a leading zero only for 0 |
| Text.Pad2 | jellyfin_strm_generator.py:711 | `f"{n:02d}"` is at least two digits |
| Text.Pad2KeepsAllDigits | jellyfin_strm_generator.py:711 | the padded form ends with the full `str(n)`, so a number is never truncated |
| Text.DigitsValueOfDigits | jellyfin_strm_generator.py:527 | reading the digits of `str(n)` gives back `n` |
| Text.ParseInt | jellyfin_strm_generator.py:527 | `int()` on a stripped entry succeeds exactly on an optional sign followed by at least one ASCII digit, and a negative value needs a leading `-` |
| Text.ParseIntSigned | jellyfin_strm_generator.py:527 | `int(sign + digits)` is the digits' value, negated after `-` |
| Text.ParseDigits | jellyfin_strm_generator.py:527 | `int(str(n)) == n` |
| Text.ParsePad2 | jellyfin_strm_generator.py:711 | `int(f"{n:02d}") == n` |
| Text.Pad2Injective | jellyfin_strm_generator.py:711-712 | different numbers give different padded forms |
| Collections.RemoveFirst | stmr_file_creator.py:216 | `list.remove` drops exactly one element |
| Collections.RemoveFirstFromUnique | stmr_file_creator.py:216 | on a list without repeats, `remove(x)` leaves exactly the other elements, still without repeats |
| Collections.RemoveFirstOrder | stmr_file_creator.py:216 | on a list without repeats, removing the element at index `i` leaves the elements before `i` followed by those after it, in their order |
| Collections.NoDupPrefix | jellyfin_strm_generator.py:913-923 | the names written before a failure are still distinct |
| Collections.Store | stmr_file_creator.py:168 | `d[k] = v` keeps the dict well formed: the key order still lists every key exactly once |
| Collections.StoreExisting | stmr_file_creator.py:168 | storing the value a key already holds leaves the dict unchanged |
| Collections.Get | stmr_file_creator.py:161 | `d.get(k, default)` is the default or a value the dict holds |
| Collections.GetAfterStore | jellyfin_strm_generator.py:799 | after `d[k] = v`, reading `k` gives `v` and every other key reads as before |
| Collections.Remove | stmr_file_creator.py:217 | `del d[k]` keeps the dict well formed |
| Collections.Items | stmr_file_creator.py:241 | `d.items()` has as many pairs as the dict has keys |
| Collections.FromKeys | jellyfin_strm_generator.py:713 | `{f: v for f in names}` has exactly the names as keys, all mapped to `v`; on distinct names the key order is the list order |
| Collections.DistinctCardinality | jellyfin_strm_generator.py:907 | a list without repeats has as many distinct elements as entries |
| Naming.SeriesNames | jellyfin_strm_generator.py:712 | there are as many names as episodes |
| Naming.EpisodeName | jellyfin_strm_generator.py:711-712 | an episode name starts with `S`, has `E` right after the season prefix, and ends with `.strm` |
| Naming.EpisodeNameParts | jellyfin_strm_generator.py:711-712 | each episode name is the season prefix, then `E`, then the padded episode, then `.strm`, and both numbers parse back unchanged |
| Naming.SeriesNamesWellFormed | jellyfin_strm_generator.py:711-712 | `n` names; the i-th is episode i; all share the season prefix; episode numbers strictly increase; no name repeats |
| Naming.MovieNameIsNotAnEpisode | jellyfin_strm_generator.py:586 | `movie.strm` is never a series name |
| FileSystem.EnsureFolder | jellyfin_strm_generator.py:847-848 | an existing folder is kept; a missing one is created unless creation fails; the empty path always fails; files are untouched |
| FileSystem.Write | jellyfin_strm_generator.py:921-923 | the written path holds the text; every other path and the folders are as they were |
| FileSystem.Written | jellyfin_strm_generator.py:913-923 | writing a run of entries creates no folder and removes no file |
| FileSystem.NamesOfItems | jellyfin_strm_generator.py:913 | the names of a dict's items are its keys in insertion order, so they never repeat |
| FileSystem.UpdatesDomain | jellyfin_strm_generator.py:921-923 | a run of writes touches exactly the paths of its names in the folder |
| FileSystem.WrittenIsOverlay | jellyfin_strm_generator.py:913-923 | writing entries one by one overlays their files on the old ones and leaves the folders as they were |
| FileSystem.UpdatesAt | jellyfin_strm_generator.py:913-923 | with distinct names, each entry's file holds that entry's text |
| FileSystem.WrittenIdempotent | jellyfin_strm_generator.py:913-923 | writing the same entries again changes nothing |
| FileSystem.WriteEntries | jellyfin_strm_generator.py:913-923 | the loop writes the first `min(failAt, n)` entries in order, and the disk is exactly those writes applied to the old disk |
| FileSystem.BlankNames | jellyfin_strm_generator.py:851 | the warning list is no longer than the dict |
| FileSystem.BlankNamesExact | jellyfin_strm_generator.py:851 | a name is in the warning list exactly when some entry with that name has blank text |
| FileSystem.BlankNamesNonEmpty | jellyfin_strm_generator.py:852 | the warning appears exactly when some entry is blank |
| FileSystem.WrittenEffect | jellyfin_strm_generator.py:913-923 | with distinct names, every entry's text lands at its path, every other path is as it was, and the folders are unchanged |
| FileSystem.BatchFolderError | jellyfin_strm_generator.py:847-848 | generation stops before any write exactly when the folder is empty or missing and cannot be created, and the disk is unchanged |
| FileSystem.Batch | jellyfin_strm_generator.py:840-955 | a batch never removes a folder or a file |
| FileSystem.BatchCancelled | jellyfin_strm_generator.py:850-857 | the warning is declined exactly when blank checking is on, some entry is blank and the user says no; no file is written, the folder exists, and the warning lists exactly the blank names |
| FileSystem.BatchProgressError | jellyfin_strm_generator.py:907-916 | the batch stops at the progress ratio's division by zero exactly when the folder is ready, the warning was not declined, the ratio is computed, the reported count is 0 and there is an entry; no file is written and the folder exists |
| FileSystem.BatchGenerated | jellyfin_strm_generator.py:913-951 | a successful batch reports the given count, writes every entry's text at its path and touches no other file |
| FileSystem.BatchWriteError | jellyfin_strm_generator.py:913-955 | a failure at write k keeps the k earlier files (no rollback) and leaves every other path, including later entries, as it was |
| FileSystem.BatchIdempotent | jellyfin_strm_generator.py:840-955 | generating again with no edits in between gives the same outcome and the same disk |
| Jellyfin.ParseDialogNumber | jellyfin_strm_generator.py:523-548 | the result is at least 1; blank input gives 1; it is refused exactly when the stripped input is not blank and is not an integer |
| Jellyfin.ParseDialogNumberOfDigits | jellyfin_strm_generator.py:523-529 | a typed positive number is taken as is |
| Jellyfin.ParseDialogNumberOfSpelling | jellyfin_strm_generator.py:523-529 | every entry `int()` accepts (whitespace, optional sign, digits, whitespace) gives its value when that is at least 1, and 1 otherwise |
| Jellyfin.ParseDialogNumberOfPadded | jellyfin_strm_generator.py:523-529 | a zero-padded positive number is taken as is |
| Jellyfin.ParseDialogNumberOfSignedDigits | jellyfin_strm_generator.py:523-529 | any minus-signed run of digits is accepted and clamped to 1 |
| Jellyfin.ParseDialogNumberClampsNegative | jellyfin_strm_generator.py:528-529 | a negative number becomes 1 |
| Jellyfin.ParseDialogNumberClampsZero | jellyfin_strm_generator.py:528-529 | 0 becomes 1 |
| Jellyfin.Flushed | jellyfin_strm_generator.py:813-816 | the flush keeps the dict well formed |
| Jellyfin.FlushedKeepsOthers | jellyfin_strm_generator.py:813-816 | the flush writes the editor text under the current name only; key order, key set and every other entry are unchanged |
| Jellyfin.SwitchAndBackShowsEdit | jellyfin_strm_generator.py:782-799 | select B after typing `t` into A, then select A again: A shows `t`, and B keeps its own text |
| Jellyfin.FlushedAfterSave | jellyfin_strm_generator.py:813-816 | flushing text that is already stored changes nothing |
| Jellyfin.SeriesNamesNonEmpty | jellyfin_strm_generator.py:712 | series names are distinct and never empty |
| Jellyfin.FirstNameSelected | jellyfin_strm_generator.py:713-723 | after the fresh dict's first name is selected, the keys are the names in order, the first holds the editor text and all others are empty |
| Jellyfin.JellyfinSession.constructor | jellyfin_strm_generator.py:32-37 | the session after the folder is chosen: empty list, buttons and dict, no current name, season 1; list, dict and current name agree |
| Jellyfin.JellyfinSession.SaveCurrentContent | jellyfin_strm_generator.py:813-816 | the dict becomes the flush of the old one; the session invariant is kept |
| Jellyfin.JellyfinSession.EditText | jellyfin_strm_generator.py:244 | a key release saves the editor text under the current name |
| Jellyfin.JellyfinSession.OnFileSelect | jellyfin_strm_generator.py:778-803 | a click on the button of `f`: flush under the old current name, then `f` is current and the editor shows its stored text; the dict and list stay in agreement when `f` is listed and stop agreeing when it is not |
| Jellyfin.JellyfinSession.SetupMovie | jellyfin_strm_generator.py:584-595 | files and buttons are `[movie.strm]`, its only entry holds the old editor text (the select's flush), and it is current |
| Jellyfin.JellyfinSession.InstallNames | jellyfin_strm_generator.py:713-723 | list, buttons and dict keys become the names in order; the first name is current and receives the editor text; all others are `""` |
| Jellyfin.JellyfinSession.SetupSeries | jellyfin_strm_generator.py:707-726 | the same for the season's `n` episode names; no current name when `n` is 0 |
| Jellyfin.JellyfinSession.ContentTypeOk | jellyfin_strm_generator.py:415-438 | a movie is set up at once; anything else opens the season dialog with the files untouched |
| Jellyfin.JellyfinSession.SeasonOk | jellyfin_strm_generator.py:521-548 | a parsed season is stored (clamped) and the episode dialog follows; refused input keeps the season and the dialog |
| Jellyfin.JellyfinSession.SeasonDialogClosed | jellyfin_strm_generator.py:563-578 | closing the season dialog sets season 1 and opens the episode dialog |
| Jellyfin.JellyfinSession.EpisodeCountOk | jellyfin_strm_generator.py:650-674 | a parsed count (clamped) sets the series up; refused input changes nothing |
| Jellyfin.JellyfinSession.EpisodeCountDialogClosed | jellyfin_strm_generator.py:689-701 | closing the episode dialog sets up a one-episode series |
| Jellyfin.JellyfinSession.ClearSession | jellyfin_strm_generator.py:822-831 | list, dict, current name and editor are all emptied, and they agree |
| Jellyfin.JellyfinSession.ChangeContentType | jellyfin_strm_generator.py:728-744 | confirmed: list, dict, current name and editor are cleared, the buttons of the old list stay, and the type dialog opens; declined: nothing changes |
| Jellyfin.JellyfinSession.ChangeContentTypeClearingList | jellyfin_strm_generator.py:728-744 | the corrected change: confirmed, the buttons go too, so list, buttons, dict and current name are all empty and agree |
| Jellyfin.JellyfinSession.ResetApp | jellyfin_strm_generator.py:818-838 | confirmed: the session is cleared, the buttons are destroyed and the type dialog opens; declined: nothing changes |
| Jellyfin.JellyfinSession.ChangeFolder | jellyfin_strm_generator.py:805-811 | a chosen folder replaces the old one; a cancelled picker changes nothing |
| Jellyfin.JellyfinSession.GenerateStrmFiles | jellyfin_strm_generator.py:840-955 | flush, then the outcome and the new disk are those of `Batch`, with blank checking on, the progress ratio over `len(files)`, and `len(files)` reported |
| Jellyfin.GeneratedWritesSession | jellyfin_strm_generator.py:907-923 | while dict and list agree, a successful batch reports the number of dict entries and writes every listed name with its text, and nothing else |
| Jellyfin.EntryCountIsFileCount | jellyfin_strm_generator.py:907 | while dict and list agree, the dict has one entry per listed name |
| Jellyfin.EmptyListWritesNothing | jellyfin_strm_generator.py:907-916 | with an empty list but a non-empty dict, generating never writes a file: it stops at the folder, at the declined warning or at the division by zero |
| Stmr.WithExtension | stmr_file_creator.py:180-181 | the name ends with `.stmr` in any case; it is unchanged exactly when it already did, else `.stmr` is appended |
| Stmr.WithExtensionIdempotent | stmr_file_creator.py:180-181 | applying the rule twice is applying it once |
| Stmr.StmrFileCreator.constructor | stmr_file_creator.py:18-21 | one empty `untitled.stmr`, current; the folder is the first picker answer |
| Stmr.StmrFileCreator.ChangeFolder | stmr_file_creator.py:131-137 | a chosen folder replaces the old one; a cancelled picker changes nothing |
| Stmr.StmrFileCreator.SaveCurrentContent | stmr_file_creator.py:166-168 | the editor text is stored under the current name, unconditionally |
| Stmr.StmrFileCreator.EditText | stmr_file_creator.py:89-90 | a key release saves the editor text under the current name |
| Stmr.StmrFileCreator.OnFileSelect | stmr_file_creator.py:145-164 | always flush; with a selected row its name becomes current and the editor shows its text; with none nothing else changes |
| Stmr.StmrFileCreator.NewFile | stmr_file_creator.py:170-200 | cancelled or empty: nothing changes; a listed name: warning, nothing changes; otherwise the name is appended with `""`, the old buffer is flushed, and the new name is current with an empty editor |
| Stmr.StmrFileCreator.DeleteFile | stmr_file_creator.py:202-228 | no selection or a single file: warning, nothing changes; declined: nothing changes; confirmed: the name leaves list and dict, the other names keep their order, row 0 is selected, and the flush writes the editor under the old current name; a deleted current name comes back as a dict key no longer listed |
| Stmr.StmrFileCreator.DeleteFileDiscardingBuffer | stmr_file_creator.py:202-228 | the same, except that the text of a deleted current file is discarded, so the dict keeps naming exactly the listed files |
| Stmr.StmrFileCreator.GenerateStmrFiles | stmr_file_creator.py:230-250 | flush, then the outcome and the new disk are those of `Batch`, with no blank check and `len(files)` reported |
| Stmr.ReportedCountIsWrittenCount | stmr_file_creator.py:241-246 | the reported `len(files)` equals the number of dict entries written exactly when the dict names no unlisted file |
| Stmr.GeneratedWritesEveryEntry | stmr_file_creator.py:241-246 | a successful batch writes every dict entry, listed or not, and reports `len(files)` |
| Scenarios.SeasonTwoNames | jellyfin_strm_generator.py:711-712 | season 2 with 3 episodes gives `S02E01.strm`, `S02E02.strm`, `S02E03.strm` |
| Scenarios.SeriesSession | jellyfin_strm_generator.py:840-923 | season "2", "3" episodes, a non-blank text typed into each: no warning, 3 reported, each text in its file |
| Scenarios.ThreeFileBatch | jellyfin_strm_generator.py:850-923 | three distinct names with non-blank texts on an empty disk: no warning, 3 reported, each text in its file |
| Scenarios.MovieSession | jellyfin_strm_generator.py:850-857 | a movie left empty: the first batch warns about `movie.strm` and, declined, writes nothing; confirmed, it writes the empty `movie.strm` |
| Scenarios.OneBlankFileBatch | jellyfin_strm_generator.py:850-857 | one blank file on a disk without files: declined writes nothing; confirmed writes it |
| Scenarios.StmrDeleteCurrentAsWritten | stmr_file_creator.py:214-246 | add `b`, delete it while current, generate: `b.stmr` is written although it is not listed, and 1 file is reported |
| Scenarios.StmrDeleteCurrentCorrected | stmr_file_creator.py:214-224 | the same steps with the corrected delete write no unlisted file |
| Scenarios.JellyfinStaleButtonAsWritten | jellyfin_strm_generator.py:728-760 | one-episode series, change of content type confirmed, type dialog closed, old episode button clicked, `x` typed, generate: the dict keeps an entry the list lacks, and the batch stops at the division by zero with no file written |
| Scenarios.UnlistedEntryBatch | jellyfin_strm_generator.py:907-916 | one non-blank entry with 0 listed names stops at the division by zero and writes nothing |
| Scenarios.JellyfinChangeTypeCorrected | jellyfin_strm_generator.py:728-744 | the same steps with the corrected change: no button is left, generating reports 0 files and writes none |

## Left out

- Widgets and layout are not modelled. That covers labels and badges, button highlighting, the status bar text, the progress window with its float progress ratio, dialog centring and focus calls. None of them touches the session.
- Message boxes, pickers and entry dialogs are parameters of the methods, not calls.
- Closing the content-type dialog with its window button only destroys the dialog. It changes no session state, so it has no method; whatever buttons exist stay clickable.
- The auto-install of `customtkinter`, icon loading, `on_close` with its list of open dialogs, and the `__main__` event loops are process plumbing.
- Jellyfin.JellyfinSession.constructor: requires a non-empty folder. When the folder picker is cancelled, the program destroys its window instead of starting a session. The picker's retry loop is not modelled.
- Stmr.StmrFileCreator.constructor: takes the first picker answer. After a cancel and a retry, the folder is overwritten with that first, empty answer (`stmr_file_creator.py:128`), so only the first answer matters. Quitting instead of retrying is not modelled.
- Jellyfin.JellyfinSession.OnFileSelect: requires the selected name to have a button (`shown`). Every call comes from a button click or from setup, which selects the first name of the buttons it has just built. Buttons left over from a change of content type are included.
- Jellyfin.ParseDialogNumber: `int()` is modelled as an optional sign and ASCII digits after stripping. Underscores and non-ASCII digits are not modelled.
- Text.TrimStart: `str.strip()` is modelled on ASCII whitespace (space, `\t`–`\r`, `\x1c`–`\x1f`) only. Other Unicode whitespace is not modelled.
- Text.Lower: `str.lower()` is modelled on ASCII letters only. Other Unicode case mappings are not modelled.
- FileSystem.EnsureFolder: `os.makedirs` is one step that can fail as a whole. Missing parent folders, a path that exists as a file, and encodings are not modelled. `os.path.join` is kept as the (folder, name) pair.
- FileSystem.WriteEntries: a failing write is given by its index (`Faults.failAt`). The kind of exception is not modelled, and neither is a partly written file.
- The `except` in `setup_series` is not modelled: no operation in its `try` can raise in the model.
- The jellyfin `file_buttons` field is modelled only by the names it maps (`shown`); the button widgets and `current_selected_file_btn`, which only drive highlighting, are not modelled.

## Behaviour followed from the code

The model follows the code in these places, where a reader might expect otherwise:

- Non-numeric season or episode input is not clamped to 1. `int()` raises `ValueError`, the error is shown, the dialog stays open and nothing changes (`jellyfin_strm_generator.py:547-548`, `673-674`). See `Jellyfin.ParseDialogNumber`, `SeasonOk` and `EpisodeCountOk`. Only blank input and numbers below 1 become 1.
- Deleting the current `.stmr` file does not discard its text: it is flushed back under the deleted name (see Findings).
- Writes follow dict insertion order, not list order, because both programs iterate the dict. In the Jellyfin generator the two orders agree while the dict and list agree (`Listed`); after a click on a left-over button the dict holds a name the list lacks. In the `.stmr` tool a re-created entry goes last.
- A reset or change of content type does not unset the content type. `reset_app` and `change_content_type` leave `content_type` as it was until the next choice; the model does the same.

## Findings

| source | as written | input that shows it | evidently intended | confidence | as-written member | corrected member |
|---|---|---|---|---|---|---|
| stmr_file_creator.py:214-224 | a confirmed delete removes the name from list and dict, then selects row 0. That selection's flush stores the editor text under the old current name, so a deleted current file reappears as a dict key that is not listed. | add `b` (it becomes current), delete `b`, generate: `b.stmr` is written, yet the list shows only `untitled.stmr` and the success message says 1 file | the deleted file's text is discarded and the dict keeps naming exactly the listed files | high, not executed | Scenarios.StmrDeleteCurrentAsWritten | Stmr.StmrFileCreator.DeleteFileDiscardingBuffer |
| jellyfin_strm_generator.py:728-744 | a confirmed change of content type empties the list, the dict and the current name but neither destroys nor rebuilds the file buttons, unlike `reset_app` (`828-830`). If the type dialog is then closed with its window button, an old button still selects its name, and the next key release stores an entry the list lacks. Generating then divides by `len(files) == 0` (`916`): the error box is shown and no file is written. | a series of one episode; Change type, yes; close the type dialog; click `S01E01.strm`; type `x`; generate | the old buttons are destroyed as in `reset_app`, so no name can be selected until a new list is built | high, not executed | Scenarios.JellyfinStaleButtonAsWritten | Jellyfin.JellyfinSession.ChangeContentTypeClearingList |
