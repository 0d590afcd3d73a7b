# gnome-bulk-rename, modelled in Dafny

gnome-bulk-rename is a GTK tool that renames many files at once. The user drops
files into a *files model*: a list store of 8-column rows holding the original
name, the proposed name (preview), their diff markup, the GFile, a status icon,
a tooltip and the folder URI. A chosen *previewer* fills in the proposed names,
a *markup* generator highlights the differences, a *checker* flags rows that
would collide, and the *rename engine* renames the files through asynchronous
GIO calls. It can do this in one pass or in two, going through temporary
`gbr-<pid>--` names so that cycles such as a→b, b→a work. The application keeps
an undo/redo stack of undo actions, but no finished rename ever reaches it: the
completion handler fails on what the rename engine passes it (see the quirks). On startup the tool registers
itself as Nautilus' bulk-rename command unless another command is registered.

The project models these parts, one module per source file:

| module | file | what it holds |
|---|---|---|
| `Rows` | rows.dfy | the row datatype (constants.py's column layout) and the `FilesModel` list store |
| `Preview` | preview.dfy | the previewers: copy, `str.translate`, spaces to underscores, every second row |
| `Markup` | markup.dfy | `MarkupNoop` and the opcode-to-markup assembly of `MarkupColor` |
| `Sort` | sort.dfy | the `ByName` comparator and its case-sensitivity toggle |
| `Check` | check.dfy | clearing warnings, the double-target check, the already-existing stub |
| `Undo` | undo.dfy | the undo/redo stacks as a class and as values |
| `RenameMap` | rename_map.dfy | `_get_rename_map`, `_find_row_number_of_gfile`, the two-pass prefix |
| `RenameBatch` | rename_batch.dfy | `_rename`: a batch of operations in flight keyed by URI, completed one at a time |
| `Rename` | rename.dfy | `RenameResults`, `Rename` (single pass, two pass, cancel), `RenameUndoAction` |
| `Filesystem` | filesystem.dfy | an abstract folder, for the file-level properties of the rename tests |
| `Register` | register.dfy | the startup registration decision and the NUL-terminated byte string |
| `App` | app.dfy | the application logic: URI dirname, adding files, rename button, completion handlers and undo policy, preview ordering, restore of the selection |

Asynchronous completion is a state machine. Starting a batch records the
operations in flight and a cancellable per URI. `Complete(batch, uri, outcome)`
is one callback of GIO, and the outcome (the renamed GFile or an error message)
is an input. A list of completions, in any order, is `Deliver`. The GIO
rename itself (`set_display_name`) is modelled only in `Filesystem`, over a
folder mapping display names to contents. The tests' properties are stated
there.

Quirks of the source are modelled as written. Witness lemmas show their effect:

- The rename back after failed final renames passes the stale loop variable
  `id` (rename.py:255): `RenameBackUsesLastErrorRow` and `RenameBackMarksOneRow`.
- A two-pass rename ignores `files_to_rename` (rename.py:133-136): see the
  `Rename` constructor.
- The done callback is called with one argument by a single pass, three by a
  two-pass rename and two by the undo closure: `CallsMismatchCallers` and
  `RenameUndoAction.RenameDone`.
- Two operations on one URI keep one cancellable, so the done callback
  fires early: `DuplicateUriNotifiesEarly`.
- A two-pass rename whose temporary renames all fail never calls back:
  `NoTemporarySuccessNoCallback`.
- The application's completion handler expects an undo action as third argument.
  A single pass calls it with one argument (TypeError, rename.py:165). A
  two-pass rename passes its `RenameResults` (rename.py:232, 260), which has no
  `set_done_callback`, so gnomebulkrenameapp.py:268 raises AttributeError
  before the push: `App.NoRenameReachesUndoStack`.
- The undo and redo of a two-pass rename ignore the swapped list
  (rename.py:133-136). They rename the model's changed rows again, which after a
  rename are only the failed ones: `RenameUndoAction.Undo` and
  `Rename.TwoPassUndoOfSettledModel`.
- The rename back after failed final renames asks to rename the row's GFile,
  which is still folder + ORIGINAL because the temporary pass does not record
  the temporary file, to ORIGINAL (rename.py:253-254). That never succeeds, so
  the file keeps its temporary name: `Filesystem.RenameToOwnNameFails`.
- A drop in which query_info raises gio.Error for a new file (gnomebulkrenameapp.py:321),
  or that holds an empty new URI, whose `uri[-1]` raises IndexError
  (gnomebulkrenameapp.py:305; only ValueError is caught at line 326), adds
  nothing, not even the files before it: `App.Application.FilesToAdd`.
- The markup is not escaped: names containing "<", ">" or "&" go into the Pango
  markup as they are (markup.py:29-30, 55-66), as `Markup.UnchangedMarkup` shows
  for unchanged names. test/test_markup.py expects `GLib.markup_escape_text` of
  them (lines 69-73, 94-95, 106) and constructs `MarkupColor` with three colour
  arguments (line 103), which `__init__` (markup.py:36) does not take; it also
  pairs the colours with the tags differently from markup.py:38-43.
- Doubles are looked for only among existing rows, not within one drop:
  `DoubleInOneDrop`.
- An app name starting with whitespace is never recognised as registered:
  `LeadingSpaceNotRecognised`.

## Model

| member | source | states |
|---|---|---|
| Rows.ErrorTooltip | gnome-bulk-rename/rename.py:179 | the error tooltip is `"<b>ERROR:</b> "` followed by exactly the message |
| Rows.MapRows | gnome-bulk-rename/preview.py:36-38 | the rows after rewriting each row with its index: same length, each row the rewrite of the old one |
| Rows.FilesModel.UpdateEachRow | gnome-bulk-rename/preview.py:83-85 | the loop over the model replaces the rows by their rewrite and nothing else |
| Preview.MakeTrans | gnome-bulk-rename/preview.py:51-52 | a table exactly when source and target have equal lengths (ValueError otherwise), and that table maps each character of the source to the target character at its last occurrence |
| Preview.PairsBelowLast | gnome-bulk-rename/preview.py:51-52 | a source character maps to the target character at its last position, since a later position overrides an earlier one |
| Preview.Translate | gnome-bulk-rename/preview.py:56-57 | the translation keeps the length and replaces each character by its table image |
| Preview.SpacesBecomeUnderscores | gnome-bulk-rename/preview.py:61-68 | the space table is maketrans(" ", "_"); translating with it leaves no space, turns spaces into "_" and keeps every other character |
| Preview.Noop | gnome-bulk-rename/preview.py:36-38 | column 1 becomes column 0 in every row, and only column 1 is written |
| Preview.EverySecond | gnome-bulk-rename/preview.py:80-85 | rows at even index get "foobar", the others their original name; only column 1 is written |
| Preview.PreviewTranslate.constructor | gnome-bulk-rename/preview.py:47-49 | a new translating previewer has no table |
| Preview.PreviewTranslate.ReplaceSpacesWithUnderscores | gnome-bulk-rename/preview.py:61-68 | the subclass starts with the table of maketrans(" ", "_") |
| Preview.PreviewTranslate.SetSourceAndTarget | gnome-bulk-rename/preview.py:51-52 | the table is replaced exactly when the lengths agree; otherwise the old table stays and the call fails |
| Preview.PreviewTranslate.Preview | gnome-bulk-rename/preview.py:54-57 | without a table the model is unchanged; with one, column 1 is the translation of column 0; only column 1 is written |
| Preview.TranslatedRowsPointwise | gnome-bulk-rename/preview.py:54-57 | with a table, each character of a preview is the table image of the original's character at that position, so lengths agree |
| Preview.ReplaceSpacesLeavesNoSpace | gnome-bulk-rename/preview.py:61-68 | after the space-replacing previewer no proposed name contains a space |
| Markup.Slice | gnome-bulk-rename/markup.py:54-63 | Python slicing: the substring for in-range bounds, empty when the bounds are past the end or crossed |
| Markup.OpcodeEffect | gnome-bulk-rename/markup.py:54-63 | equal appends the same unmarked slice to both sides; delete and insert add a marked slice to one side only; replace marks both slices |
| Markup.PlainAppend | gnome-bulk-rename/markup.py:65-66 | the text of joined pieces is the concatenation of their texts |
| Markup.JoinAppend | gnome-bulk-rename/markup.py:65-66 | `"".join` of concatenated pieces is the concatenation of the joins |
| Markup.PlainSides | gnome-bulk-rename/markup.py:54-63 | one opcode's text on the old side is its old slice (empty for insert) and on the new side its new slice (empty for delete) |
| Markup.StripMarkers | gnome-bulk-rename/markup.py:52-66 | when the opcodes tile both names in order, removing the markers from the markup gives back the original and the preview |
| Markup.UnchangedMarkup | test/test_markup.py:149-150 | when every opcode is equal, the markup is the names themselves |
| Markup.Noop | gnome-bulk-rename/markup.py:27-30 | columns 2 and 3 become copies of columns 0 and 1 in every row; nothing else changes |
| Markup.Color | gnome-bulk-rename/markup.py:46-66 | every row gets the colour markup of its two names from the given opcodes |
| Markup.ColorMarkupFaithful | gnome-bulk-rename/markup.py:46-66 | for tiling opcodes the colour markup of a row strips back to its names, and it is the names for an unchanged row |
| Sort.Cmp | gnome-bulk-rename/sort.py:40-44 | cmp gives -1, 0 or 1, and 0 exactly for equal strings |
| Sort.CmpIsLexicographic | gnome-bulk-rename/sort.py:41-42 | cmp is -1 exactly when a is lexicographically before b, and 1 exactly when b is before a |
| Sort.CmpAntisymmetric | gnome-bulk-rename/sort.py:40-44 | cmp(a, b) == -cmp(b, a) |
| Sort.Lower | gnome-bulk-rename/sort.py:43-44 | `str.lower` keeps the length and lowers each character |
| Sort.TreeSortable.SetSortColumnId | gnome-bulk-rename/sort.py:51-57 | the sort column and order are set, and the call is recorded |
| Sort.ByName.constructor | gnome-bulk-rename/sort.py:29-37 | comparison starts case sensitive |
| Sort.ByName.Compare | gnome-bulk-rename/sort.py:40-44 | cmp of column 0, lowercased when case insensitive: -1, 0 or 1, and 0 exactly for equal names (after lowering when insensitive) |
| Sort.ByName.CompareIsLexicographic | gnome-bulk-rename/sort.py:40-44 | the comparator is antisymmetric in both modes; case sensitive it is the lexicographic sign on column 0, insensitive on the lowered names |
| Sort.ByName.OnCaseCheckToggled | gnome-bulk-rename/sort.py:51-57 | the mode follows the check button; the sort column is reset to unsorted and then restored |
| Sort.CaseInsensitiveIgnoresCase | gnome-bulk-rename/sort.py:43-44 | case insensitive, names differing only in case compare equal |
| Check.ClearWarningsErrors | gnome-bulk-rename/check.py:25-28 | columns 5 and 6 of every row become None; nothing else changes |
| Check.Previews | gnome-bulk-rename/check.py:33-35 | the list of column-1 names, one per row |
| Check.PositionsExact | gnome-bulk-rename/check.py:33-40 | dd[f] holds exactly the indices of f, each once, increasing |
| Check.GroupsBelowMap | gnome-bulk-rename/check.py:35-40 | after the loop has walked n names, dd maps exactly the names met so far, each to the ascending list of its indices |
| Check.GroupsBelowDoubles | gnome-bulk-rename/check.py:35-40 | after n names, double_filenames holds exactly the names met twice or more |
| Check.GroupsExact | gnome-bulk-rename/check.py:35-40 | after the loop, dd holds exactly the output names, each with its index list, and double_filenames exactly those occurring twice or more |
| Check.TwinInLongPositions | gnome-bulk-rename/check.py:42-43 | an index in a group of two or more has a twin |
| Check.TwinHasLongPositions | gnome-bulk-rename/check.py:42-43 | a row with a twin is in a group of two or more |
| Check.FlagRow | gnome-bulk-rename/check.py:47-53 | one row gets the error icon and the message as tooltip, or appended after a newline |
| Check.GroupByTarget | gnome-bulk-rename/check.py:33-40 | dd maps exactly the output names to their index lists, and the double filenames are exactly the names occurring twice or more |
| Check.FlagGroup | gnome-bulk-rename/check.py:44-54 | rows of a group not yet registered are flagged once and registered; the others are unchanged |
| Check.RegisteredAreTwins | gnome-bulk-rename/check.py:45-54 | the rows the flagging loop registers are exactly the rows sharing their output name with another row |
| Check.CheckForDoubleTargets | gnome-bulk-rename/check.py:31-56 | the rows become DoubleTargets of the old rows; the result is 2 exactly when some output name is doubled, else 0 |
| Check.DoubleTargetsEffect | gnome-bulk-rename/check.py:42-54 | a row with a twin gets the error icon and the message appended once after its old tooltip; a unique row keeps columns 5 and 6 |
| Check.ProblemLevelMeansFlagged | gnome-bulk-rename/check.py:42-56 | level 2 is reported exactly when some row gets flagged |
| Check.CheckForAlreadyExistingNames | gnome-bulk-rename/check.py:59-63 | always reports no problem |
| Undo.Step | gnome-bulk-rename/undo.py:32-46 | undo and redo on a non-empty stack pop its top; pushes pop nothing |
| Undo.UndoStack.constructor | gnome-bulk-rename/undo.py:28-30 | both stacks start empty |
| Undo.UndoStack.Push | gnome-bulk-rename/undo.py:32-35 | the action goes on top of the undo stack; the redo stack is emptied |
| Undo.UndoStack.PushToRedo | gnome-bulk-rename/undo.py:37-38 | the action goes on top of the redo stack; the undo stack is kept |
| Undo.UndoStack.Undo | gnome-bulk-rename/undo.py:40-42 | pops the top of the undo stack (None on an empty stack, where pop raises IndexError); the redo stack is kept |
| Undo.UndoStack.Redo | gnome-bulk-rename/undo.py:44-46 | pops the top of the redo stack (None on an empty stack); the undo stack is kept |
| Undo.ActionsComeFromPushes | gnome-bulk-rename/undo.py:20-26 | after any calls, an action on either stack was there at first or was pushed by the caller: the stack moves nothing by itself |
| Undo.PushThenUndoIsLifo | gnome-bulk-rename/undo.py:32-42 | pushing a then b and undoing twice gives b, then a, and restores the undo stack |
| RenameMap.Kept | gnome-bulk-rename/rename.py:199-201 | the indices a skipping loop keeps: ascending, satisfying the test, and all of them |
| RenameMap.ModelRequests | gnome-bulk-rename/rename.py:203-204 | one request per kept row, renaming its GFile to its preview with (row, dirname, old, new) as data |
| RenameMap.TemporaryRequests | gnome-bulk-rename/rename.py:287-288 | one request per kept row, renaming its GFile to prefix + preview with the row as data |
| RenameMap.GetRenameMapFromModel | gnome-bulk-rename/rename.py:193-204 | the loop builds the rename map of the model |
| RenameMap.GetTemporaryRenameMap | gnome-bulk-rename/rename.py:278-288 | the loop builds the map of the first pass |
| RenameMap.ModelRenameMapShape | gnome-bulk-rename/rename.py:191-204 | the rename map holds exactly the rows whose name changes, in model order, targeting the preview with (row, dirname, old, new) |
| RenameMap.TemporaryRenameMapShape | gnome-bulk-rename/rename.py:278-288 | the first pass renames exactly the changed rows, in model order, each to prefix + preview |
| RenameMap.FirstRowWithGfile | gnome-bulk-rename/rename.py:183-188 | the first row holding the GFile, or None when no row does |
| RenameMap.FindRowNumberOfGfile | gnome-bulk-rename/rename.py:183-188 | the loop returns the first row with that GFile, or None |
| RenameMap.ListRequests | gnome-bulk-rename/rename.py:213-215 | each request renames folder + old name, with the row of that GFile in its data |
| RenameMap.GetRenameMapFromList | gnome-bulk-rename/rename.py:207-215 | the loop builds the map of files_to_rename |
| RenameMap.ListRenameMapShape | gnome-bulk-rename/rename.py:207-215 | the map from files_to_rename holds exactly its entries whose name changes, each made for its entry |
| RenameMap.GetRenameMap | gnome-bulk-rename/rename.py:191-217 | the map comes from the model without files_to_rename, and from the list with it |
| RenameMap.Decimal | gnome-bulk-rename/rename.py:224 | at least one digit, all decimal |
| RenameMap.DecimalValue | gnome-bulk-rename/rename.py:224 | the digits of Decimal(n) denote n, with no leading zero unless n is 0 |
| RenameMap.Width10Shape | gnome-bulk-rename/rename.py:224 | "%10d" of a number below 10^10 is blanks followed by its decimal digits |
| RenameMap.PrefixHoldsPid | gnome-bulk-rename/rename.py:224 | the ten characters after "gbr-" are "%10d" of the pid: blanks, then its decimal digits |
| RenameMap.Width10Length | gnome-bulk-rename/rename.py:224 | "%10d" of a number below 10^10 has exactly 10 characters |
| RenameMap.TwoPassPrefix | gnome-bulk-rename/rename.py:224 | the prefix starts with "gbr-", ends with "--", has no '/', and has 16 characters for a pid below 10^10 |
| RenameBatch.UriSeq | gnome-bulk-rename/rename.py:63 | the URIs of the requests, in order |
| RenameBatch.Issue | gnome-bulk-rename/rename.py:60-67 | the loop starts every request and holds at most one cancellable per request |
| RenameBatch.UrisCard | gnome-bulk-rename/rename.py:60-63 | the dict of cancellables has at most as many keys as the map has entries |
| RenameBatch.FirstWithUri | gnome-bulk-rename/rename.py:44-54 | the first operation in flight on the URI |
| RenameBatch.Complete | gnome-bulk-rename/rename.py:44-57 | the completion records the success or the error and removes the cancellable; it notifies exactly when that was the last cancellable, raises KeyError when the key is already gone, and does nothing for an unknown URI |
| RenameBatch.CompleteFields | gnome-bulk-rename/rename.py:44-57 | a completion on a URI in flight removes the first operation on it and records its outcome, as a success or an error, under that operation's data |
| RenameBatch.StartedValid | gnome-bulk-rename/rename.py:60-67 | a map with distinct URIs starts a valid batch |
| RenameBatch.CompleteAccounts | gnome-bulk-rename/rename.py:44-57 | a completion loses no user data: each operation is in flight or recorded |
| RenameBatch.OutcomesAccounted | gnome-bulk-rename/rename.py:49-51 | every recorded outcome is for an operation of the batch |
| RenameBatch.StartedAccounted | gnome-bulk-rename/rename.py:60-65 | the user data of a new batch are those of its map |
| RenameBatch.FailedNotSucceeded | gnome-bulk-rename/rename.py:46-51 | with distinct user data, an operation that failed is not among the successes |
| RenameBatch.CompleteValid | gnome-bulk-rename/rename.py:44-57 | in a valid batch a completion keeps it valid, never raises KeyError, removes its URI, and notifies exactly when nothing is left in flight |
| RenameBatch.Deliver | gnome-bulk-rename/rename.py:44-57 | one signal per completion delivered |
| RenameBatch.AllOperationsAccounted | gnome-bulk-rename/rename.py:44-67 | when every operation completes once, in any order, nothing is left in flight, no cancellable remains, and each operation ended in successes or errors |
| RenameBatch.DoneCalledOnce | gnome-bulk-rename/rename.py:55-57 | the done callback is called exactly once, by the last completion |
| RenameBatch.FirstCompletion | gnome-bulk-rename/rename.py:55-57 | the first completion keeps the batch valid and notifies only if it was the only operation |
| RenameBatch.EmptyMapNeverNotifies | gnome-bulk-rename/rename.py:60-67 | a batch with no operation never calls the done callback |
| RenameBatch.DuplicateUriNotifiesEarly | gnome-bulk-rename/rename.py:63 | two operations on one URI share one key, so the first completion notifies and the second raises KeyError |
| Rename.WithError | gnome-bulk-rename/rename.py:177-179 | a failed row gets the error icon and the error tooltip; its other columns are kept |
| Rename.Last | gnome-bulk-rename/rename.py:175-179 | the last entry naming a row, or -1 |
| Rename.MarkFailures | gnome-bulk-rename/rename.py:173-181 | marking failures keeps the number of rows |
| Rename.MarkFailuresAt | gnome-bulk-rename/rename.py:173-181 | a row carries the error of the last failure naming it; a row no failure names is unchanged |
| Rename.ApplySuccesses | gnome-bulk-rename/rename.py:152-157 | applying successes keeps the number of rows |
| Rename.ApplySuccessesAt | gnome-bulk-rename/rename.py:152-157 | a row has the new name and GFile of the last success naming it; the other columns are kept, and a row no success names is unchanged |
| Rename.RenameDataOf | gnome-bulk-rename/rename.py:152-154 | one (folder, old, new) per success, in order |
| Rename.CommitFinal | gnome-bulk-rename/rename.py:237-244 | the final commit keeps the number of rows and records one triple per success |
| Rename.CommitFinalAt | gnome-bulk-rename/rename.py:237-244 | a row named by a success ends with its preview as name and the GFile of its last success; other rows are unchanged |
| Rename.CommitFinalData | gnome-bulk-rename/rename.py:237-241 | when rows succeed at most once, the data are (dirname, original, preview) of the successful rows |
| Rename.FinalMap | gnome-bulk-rename/rename.py:271-273 | one request per temporary success, carrying its row |
| Rename.RenameBackMap | gnome-bulk-rename/rename.py:252-255 | one request per final error, and every one carries the stale id |
| Rename.CompleteSingle | gnome-bulk-rename/rename.py:149-170 | a completion updates the batch; on the last one the model and results are updated and the callback is called once with the results |
| Rename.CompleteTwo | gnome-bulk-rename/rename.py:227-274 | a completion in a two-pass batch updates that batch, and on its last completion the pass's done function runs |
| Rename.Rename.constructor | gnome-bulk-rename/rename.py:121-137 | a single pass starts the map of the model or files_to_rename; a two-pass rename ignores files_to_rename and starts the temporary pass with prefix "gbr-%10d--" % pid |
| Rename.Rename.Cancel | gnome-bulk-rename/rename.py:139-143 | every cancellable of the current batch is cancelled; nothing else changes |
| Rename.Rename.CompleteSinglePass | gnome-bulk-rename/rename.py:44-57 | one completion of the single pass: the state becomes CompleteSingle of the old state |
| Rename.Rename.SinglePassRenameDone | gnome-bulk-rename/rename.py:149-165 | the single-pass done callback: the state becomes SinglePassDone |
| Rename.Rename.UpdateModelForSuccesses | gnome-bulk-rename/rename.py:152-158 | the loop writes the successes into the model and collects their rename data |
| Rename.Rename.HandleRenameErrors | gnome-bulk-rename/rename.py:173-181 | the rows of failed renames are marked, in order |
| Rename.Rename.MarkRowErrors | gnome-bulk-rename/rename.py:266-268 | the rows of failed operations of a two-pass batch are marked, in order |
| Rename.Rename.CompleteTwoPass | gnome-bulk-rename/rename.py:44-57 | one completion of a two-pass batch: the state becomes CompleteTwo of the old state |
| Rename.Rename.ToTemporaryDone | gnome-bulk-rename/rename.py:263-274 | marks the errors and starts the final pass from the temporary successes |
| Rename.Rename.GetFinalMap | gnome-bulk-rename/rename.py:271-273 | the loop builds the map of the final pass |
| Rename.Rename.ToFinalDone | gnome-bulk-rename/rename.py:234-260 | commits successes and marks errors; on errors starts the rename back, otherwise calls back with three arguments |
| Rename.Rename.CommitFinalRenames | gnome-bulk-rename/rename.py:237-244 | the loop commits the final successes and records their data |
| Rename.Rename.GetRenameBackMap | gnome-bulk-rename/rename.py:252-255 | the loop builds the rename-back map with the stale id |
| Rename.Rename.RenameBackDone | gnome-bulk-rename/rename.py:227-232 | marks the errors of the rename back and calls back with three arguments |
| Rename.SinglePassRowEffect | gnome-bulk-rename/rename.py:149-180 | after the single pass a row is renamed only if a success names it, marked as failed only if an error names it, and otherwise unchanged |
| Rename.SinglePassRecordsOnlySuccesses | gnome-bulk-rename/rename.py:151-154 | every recorded triple comes from a success |
| Rename.FailedRenamesNotRecorded | gnome-bulk-rename/rename.py:149-162 | with distinct user data, a failed entry is never recorded as a success, so undo never replays it |
| Rename.FinalPassTargetsPreviews | gnome-bulk-rename/rename.py:263-274 | the final pass renames exactly the temporary successes, each to its row's preview |
| Rename.NoTemporarySuccessNoCallback | gnome-bulk-rename/rename.py:271-274 | when no temporary rename succeeds the final map is empty, so the callback is never called |
| Rename.RenameBackUsesLastErrorRow | gnome-bulk-rename/rename.py:253-255 | with errors on rows 0 and 1, both rename-back entries carry row 1 |
| Rename.RenameBackMarksOneRow | gnome-bulk-rename/rename.py:227-230 | errors of the rename back mark only the stale row; every other row is unchanged |
| Rename.CallsMismatchCallers | gnome-bulk-rename/rename.py:165 | the one-argument call here, like the three-argument calls at lines 232 and 260: a callback of the wrong arity is never called with arguments it accepts |
| Rename.Inverted | gnome-bulk-rename/rename.py:101-105 | same length, each (folder, old, new) becomes (folder, new, old), in order |
| Rename.InvertedInvolution | gnome-bulk-rename/rename.py:101-105 | swapping twice gives the list back |
| Rename.UndoRenamesBack | gnome-bulk-rename/rename.py:207-215 | the undo of a renamed file renames folder + new name back to the old name |
| Rename.RenameUndoAction.constructor | gnome-bulk-rename/rename.py:71-74 | the action holds its results and no done callback |
| Rename.RenameUndoAction.SetDoneCallback | gnome-bulk-rename/rename.py:77-78 | the done callback is set; nothing else changes |
| Rename.RenameUndoAction.SetUpList | gnome-bulk-rename/rename.py:101-105 | the loop gives the inverted rename data |
| Rename.RenameUndoAction.Undo | gnome-bulk-rename/rename.py:81-88 | a new Rename of the same model and mode with a one-argument callback: a single pass renames by the inverted list; a two-pass one ignores it and starts the temporary pass over the model's changed rows |
| Rename.RenameUndoAction.Redo | gnome-bulk-rename/rename.py:91-98 | the same as undo, from the results of the undo |
| Rename.TwoPassUndoOfSettledModel | gnome-bulk-rename/rename.py:133-136 | a two-pass undo of a model in which every name equals its preview renames nothing |
| Rename.RenameUndoAction.RenameDone | gnome-bulk-rename/rename.py:82-84 | a one-argument call replaces the results and forwards them with the action; a three-argument call is a TypeError |
| Filesystem.NameOf | gnome-bulk-rename/rename.py:63 | the display name of the folder's file with that URI, if there is one |
| Filesystem.SetDisplayName | gnome-bulk-rename/rename.py:46-51 | the rename succeeds exactly for a valid new name, an existing file and a free target; on success the contents move to the new name and nothing else changes |
| Filesystem.RenameToOwnNameFails | gnome-bulk-rename/rename.py:253-254 | renaming folder + name to name fails for every folder and name: the target exists, or the file does not |
| Filesystem.RenameBackRestores | gnome-bulk-rename/rename.py:81-89 | renaming the new file back to its old name restores the folder |
| Filesystem.RunInOrder | gnome-bulk-rename/rename.py:60-65 | one outcome per request, same folder |
| Filesystem.FreshMovesRun | test/test_rename.py:90-121 | distinct renames to fresh names all succeed; every target holds its source's contents and nothing else changes |
| Filesystem.DeliverInOrder | gnome-bulk-rename/rename.py:44-57 | successes delivered in map order leave nothing in flight and record the successes in order |
| Filesystem.SinglePassMovesFiles | test/test_rename.py:112-121 | a single pass with distinct fresh valid previews leaves no source behind, each target holding its source's contents |
| Filesystem.TwoPassMovesFiles | test/test_rename.py:123-131 | a two-pass rename with distinct valid previews, only swapping names among the rows, moves every file to its preview |
| Filesystem.RotationOfFive | test/test_rename.py:123-131 | after a two-pass rename of Test0..Test4, each name holds the contents of the one before it, cyclically |
| Register.SettingString | gnome-bulk-rename/register.py:47-48 | the command is the app name followed by " -s" |
| Register.Encode | gnome-bulk-rename/register.py:79 | the stored bytes are the characters followed by one NUL |
| Register.Decode | gnome-bulk-rename/register.py:52-53 | each byte becomes a character, and the last byte is dropped |
| Register.DecodeEncode | gnome-bulk-rename/register.py:52-53 | decoding what was encoded gives the string back |
| Register.Strip | gnome-bulk-rename/register.py:35 | `str.strip`: the part between leading and trailing whitespace, not starting or ending with whitespace, and empty exactly for an all-whitespace string |
| Register.StripKeeps | gnome-bulk-rename/register.py:35 | a string that neither starts nor ends with whitespace is its own strip |
| Register.Decide | gnome-bulk-rename/register.py:27-44 | skipped exactly when the schema is missing; a missing key is an uncaught error; register exactly for an empty stripped setting; other command when the setting lacks the app name; already registered when it holds it |
| Register.NautilusSettings.constructor | gnome-bulk-rename/register.py:58-65 | the settings of the schema, by key |
| Register.NautilusSettings.GetBulkRenamerSetting | gnome-bulk-rename/register.py:68-74 | None exactly when the key is missing, otherwise the decoded value |
| Register.NautilusSettings.Register | gnome-bulk-rename/register.py:76-80 | when the key exists, stores the setting string followed by one NUL; otherwise nothing changes |
| Register.StoredSetting | gnome-bulk-rename/register.py:68-74 | the setting as read: None exactly when the key is missing |
| Register.StartupCheck | gnome-bulk-rename/register.py:31-44 | the decision from the schema and the stored setting; only a Register decision writes the store, after which the next startup finds the tool registered |
| Register.RegisteredIsRecognised | gnome-bulk-rename/register.py:35-42 | once the setting string is stored, the decision is already registered, for an app name not starting with whitespace |
| Register.ReadBack | gnome-bulk-rename/register.py:72-80 | what the setting reads after register is the setting string |
| Register.LeadingSpaceNotRecognised | gnome-bulk-rename/register.py:35-40 | an app name starting with whitespace is stripped off its own setting, so the decision is another command |
| App.LastSlash | gnome-bulk-rename/gnomebulkrenameapp.py:308 | `rfind("/")`: the index of the last '/', or -1 |
| App.UriDirname | gnome-bulk-rename/gnomebulkrenameapp.py:302-313 | after dropping one trailing '/', the URI up to and including its last '/'; ValueError when no '/' remains; an empty URI is its own case |
| App.DirnameOfEntry | gnome-bulk-rename/gnomebulkrenameapp.py:302-313 | the dirname of a file or subfolder in a folder is that folder |
| App.Candidate | gnome-bulk-rename/gnomebulkrenameapp.py:317-329 | a row is added exactly for a file not in the model, with an edit name and a dirname; it is [name, "", "", "", gfile, None, None, dirname] |
| App.DropFailsIff | gnome-bulk-rename/gnomebulkrenameapp.py:317-326 | a drop fails exactly when, for one of its files that is not in the model, query_info raises or the URI is empty |
| App.NoRenameReachesUndoStack | gnome-bulk-rename/gnomebulkrenameapp.py:265-269 | every call a Rename makes ends the completion handler in an error before the push: AttributeError for two passes, TypeError for one |
| App.AddedRowsAreNew | gnome-bulk-rename/gnomebulkrenameapp.py:316-329 | every added row is a new row for a dropped file that was not in the model |
| App.AddedRowsComplete | gnome-bulk-rename/gnomebulkrenameapp.py:316-329 | every dropped file not in the model, with an edit name and a dirname, is added |
| App.RowsToAddAppend | gnome-bulk-rename/gnomebulkrenameapp.py:316-334 | rows are added in drop order |
| App.DropTwiceAddsNothing | gnome-bulk-rename/gnomebulkrenameapp.py:316-320 | dropping the same files again adds nothing |
| App.DoubleInOneDrop | gnome-bulk-rename/gnomebulkrenameapp.py:316-320 | a URI dropped twice in one drop gives two rows |
| App.RenameButtonSensitive | gnome-bulk-rename/gnomebulkrenameapp.py:355-361 | the button is disabled exactly when there is a checker and either all names stay the same or the problem level is above 1 |
| App.DoubleTargetsDisableRename | gnome-bulk-rename/gnomebulkrenameapp.py:355-361 | two rows with the same new name disable the rename button |
| App.ChoiceOf | gnome-bulk-rename/gnomebulkrenameapp.py:492-495 | the combo-box row of a preview class, with priority 0.5 when the class has none |
| App.FirstAbove | gnome-bulk-rename/gnomebulkrenameapp.py:497-501 | the index of the first row with a higher priority, or the end |
| App.InsertSorted | gnome-bulk-rename/gnomebulkrenameapp.py:496-503 | inserting into a sorted combo box keeps it sorted, after the rows of equal priority |
| App.InsertAdds | gnome-bulk-rename/gnomebulkrenameapp.py:496-503 | an insertion adds exactly the new row |
| App.InsertAllSorted | gnome-bulk-rename/gnomebulkrenameapp.py:491-503 | the combo box stays sorted by priority and holds the old rows and every preview |
| App.UndoOfNothingDropsAction | gnome-bulk-rename/gnomebulkrenameapp.py:276-281 | an undo that renamed nothing leaves nothing to redo |
| App.UndoRedoRoundTrip | gnome-bulk-rename/gnomebulkrenameapp.py:265-291 | rename, undo and redo that each rename something give back the stacks after the rename |
| App.Application.constructor | gnome-bulk-rename/gnomebulkrenameapp.py:123-190 | the application starts with an empty combo box, no active row and no checker |
| App.Application.IsFileInModel | gnome-bulk-rename/gnomebulkrenameapp.py:470-475 | true exactly when some row holds the file |
| App.Application.AddToFilesModel | gnome-bulk-rename/gnomebulkrenameapp.py:300-334 | raises exactly when the drop fails, and then changes nothing; otherwise the new rows are appended after the old ones |
| App.Application.FilesToAdd | gnome-bulk-rename/gnomebulkrenameapp.py:316-329 | the loop fails exactly when, for a file not in the model, query_info raises or the URI is empty, and otherwise collects the rows to add |
| App.Application.UpdateRenameButtonSensitivity | gnome-bulk-rename/gnomebulkrenameapp.py:355-361 | the button follows the rule of RenameButtonSensitive |
| App.Application.OnRenameCompleted | gnome-bulk-rename/gnomebulkrenameapp.py:265-272 | the action always reports to the undo handler and is pushed |
| App.Application.OnUndoRenameCompleted | gnome-bulk-rename/gnomebulkrenameapp.py:276-282 | an undo that renamed something reports to the redo handler and goes to the redo stack; otherwise nothing changes |
| App.Application.OnRedoRenameCompleted | gnome-bulk-rename/gnomebulkrenameapp.py:285-291 | a redo that renamed something reports to the undo handler and is pushed, which empties the redo stack; otherwise nothing changes |
| App.Application.OnUndoButtonClicked | gnome-bulk-rename/gnomebulkrenameapp.py:364-366 | pops the undo stack and starts the undo of the action, in its mode and with its rename map; nothing on an empty stack |
| App.Application.OnRedoButtonClicked | gnome-bulk-rename/gnomebulkrenameapp.py:369-371 | pops the redo stack and starts the redo of the action, in its mode and with its rename map; nothing on an empty stack |
| App.Application.CollectPreviews | gnome-bulk-rename/gnomebulkrenameapp.py:486-503 | each preview class, in discovery order, is inserted before the first row of higher priority, or appended |
| App.Application.InsertChoice | gnome-bulk-rename/gnomebulkrenameapp.py:496-503 | the row goes before the first row of higher priority, or is appended; nothing else changes |
| App.Application.FindSelection | gnome-bulk-rename/gnomebulkrenameapp.py:229-235 | the first row whose description is the saved one, or 0 when none is |
| App.Application.RestoreState | gnome-bulk-rename/gnomebulkrenameapp.py:219-236 | no state file changes nothing; otherwise the saved description's first row, or row 0, becomes active |

## Left out

- GTK widgets, dialogs, info bars, drag and drop, and `refresh` after a rename or a drop: not logic of the core. The completion handlers model only their effect on the undo stack.
- Gio's asynchronous I/O and the main loop: an outcome is an input of `Complete`, and the order of completions is a parameter of `Deliver`.
- What `gio.Cancellable.cancel` does to an operation: `Rename.Rename.Cancel` records the cancelled URIs; a cancelled operation completes with an error like any other.
- `difflib.SequenceMatcher`: the opcodes are an input function; the markup properties assume they tile both names.
- Logging, the pickle state file and `os.getpid`: the pid and the unpickled state are parameters. `config.appname` is not defined in the files modelled, so it is a parameter.
- `SETTINGS_SCHEMA_NAUTILUS`, `SETTINGS_NAUTILUS_BULK_RENAME_TOOL` and `PREVIEWS_SELECTION_PRIORITY` are used but not defined in constants.py. The schema name and key are parameters.
- App.Application.CollectPreviews: the combo-box rows are (description, preview, priority) with the priority read from the third column. The source reads an undefined column constant from a two-column store.
- The `check.Checker` class is not part of this model. It is used by the application but not defined in check.py; the rename button is modelled on a summary of it (`CheckerSummary`).
- `_get_previews_from_model_by_introspection` and collect.py: the preview classes are a parameter of `CollectPreviews`.
- Register.StartupCheck: models the loop over its one class, `_Nautilus`. A missing key makes `None.strip()` raise AttributeError, which nothing catches; it is the `MissingKey` decision.
- App.Candidate: a FileInfo is always true, so `if fileinfo` never skips a file. A file info without an edit name, whose `None` the source appends as the name, is not modelled.
- `RenameBatch.Complete` with duplicate URIs: a completion is matched to the first operation in flight on its URI, since GIO's completion order among them is not observable in the model.
- Python 2 byte strings are modelled as sequences of characters. The two agree only for ASCII: `maketrans("ä", "ae")` accepts a two-byte "ä" in the source.
- Filesystem: completions run in map order. Folder renames and their nesting are not modelled; the tests mark them as expected to fail.
- Filesystem: gio's error messages are abstract constants.
- The tests need a real filesystem and GTK; they are only a source of properties here.
- `Rename.Rename` with duplicate URIs: after the done callback has fired, later completions of the same batch only raise KeyError in the old closure. The class drops them. `RenameBatch.Complete` models the KeyError.
