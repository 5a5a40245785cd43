# butiki: a verified model of the label-to-command table

`butiki` is a command-line bookmark manager for shell commands. It keeps a
table from labels to command strings in a JSON file in the user's home
directory. Every invocation loads that table, applies one subcommand (`add`,
`update`, `delete`, `list`, `run`, `edit`, `search`, `export`, `import`) and,
when the subcommand changed something, writes the whole table back.

This project models that table and the rule each subcommand applies to it,
and proves what those rules promise. It has three modules:

- `Strings` (`strings.dfy`): the parts of Go's `strings` package the tool
  relies on. `TrimSpace` is written as Go computes it, with a `start` index
  moved forward over leading whitespace and a `stop` index moved back over
  trailing whitespace. `Index`/`Contains` and `Join` are also here, with
  `Split` on one separator as the inverse of `Join`.
- `CommandTable` (`table.dfy`): the table as `map<string, string>` and the
  operations `AddCommand`, `UpdateCommand`, `DeleteCommand`, `ListCommands`,
  `SearchCommands`, `ImportCommands` (the merge loop) and `EditCommand` with
  its decision `DecideEdit`.
- `Cli` (`cli.dfy`): the argument checks of `main` (`ParseArgs`) and the
  effect of one invocation (`Perform`, `Execute`). The effect is the table
  handed to the store, if any, plus what is reported.

`main.go` runs `addCommand`, `updateCommand`, `deleteCommand` and the edit
update on a map that was loaded fresh a moment earlier. Nothing else refers
to that map. So these operations are functions from the loaded table to the
new table and an outcome tag, and nothing is lost by that. `searchCommands`
and the merge in `importCommands` are `range` loops. They are methods with
`while` loops over the key set, proved equal to the specification functions
`Matching` and `Merge`. `Perform` uses those two functions, because a
function cannot call a method.

Inputs stand in for the outside world:

- The store file (`StoreFile`) is what a load finds: absent, unreadable,
  malformed (with whatever decoding filled in), or a stored table.
- The file named for import (`ImportFile`) is unreadable, invalid JSON, or a
  decoded table.
- The editor step (`EditSession`) fails to create the temporary file, fails
  to read it back, or yields the text the user saved.

Writing the store and loading it again is taken to give back the same table.
The model never claims that a save succeeded: `SaveRequested(t)` means only
that `t` was handed to the save routine.

In three places the code does something other than one might expect, and
the model follows the code:

- **Edit.** One might expect that saving text whose trimmed form equals the
  trimmed original changes nothing. The code compares the trimmed edited text
  with the stored command *untrimmed* (main.go:171-173). A command stored as
  `"ls "` (which `add` allows) is therefore rewritten to `"ls"` even when the
  user saves it unchanged (`EditTrimsUntrimmedCommand`). The expectation
  holds for commands that have no whitespace at either end
  (`EditPaddingIsNoChange`, `EditUnchangedSavesNothing`).
- **Import with a failed load.** One might expect import to treat a failed
  load of the store as an empty table. The code uses whatever `loadCommands`
  returned, whatever the error (main.go:228). For a malformed store that is
  whatever decoding filled in, which is empty after a JSON syntax error.
  A value of the wrong type is kept under its label as the empty command,
  and decoding goes on with the rest. For an unreadable store it is a nil
  map: the first assignment into it panics, and with nothing to import the
  nil map itself is saved (`ImportInto`).
- **Stored commands may be empty.** One might expect stored commands never
  to be empty. In the code, `butiki add x ""` stores an empty command
  (`EmptyCommandIsStored`).

## Model

| member | source | states |
|---|---|---|
| `Strings.TrimSpace` | main.go:171 | the result has no whitespace at either end, and the input is whitespace, then the result, then whitespace |
| `Strings.TrimSpaceOfPadded` | main.go:171 | whitespace added around a string with no whitespace at its ends (such as an editor's final newline) is removed, and nothing else is |
| `Strings.TrimSpaceIdempotent` | main.go:171 | trimming twice gives the same as trimming once |
| `Strings.Index` | main.go:190 | the first position where the keyword occurs, or -1 exactly when it occurs nowhere; `Contains` is `Index >= 0` |
| `Strings.ContainsEmpty` | main.go:190 | every string contains the empty keyword |
| `Strings.ContainsSlice` | main.go:190 | every string contains each of its slices |
| `Strings.JoinLength` | main.go:265 | the joined command is as long as all the words plus one separator between each pair |
| `Strings.SplitJoin` | main.go:265 | splitting the joined command at single spaces gives the words back, when there is at least one word and no word holds a space |
| `CommandTable.AddCommand` | main.go:53-58 | an existing label is a conflict and leaves the table unchanged; otherwise the keys gain exactly the label, it maps to the command, and every other entry keeps its value |
| `CommandTable.UpdateCommand` | main.go:68-73 | a missing label is not-found and leaves the table unchanged; otherwise the key set is preserved, the label maps to the new command and every other entry keeps its value |
| `CommandTable.DeleteCommand` | main.go:83-88 | a missing label is not-found and leaves the table unchanged; otherwise exactly that key is removed, the size drops by one and every other entry keeps its value |
| `CommandTable.DeleteUndoesAdd` | main.go:47-90 | deleting a label just added restores the previous table |
| `CommandTable.AddUndoesDelete` | main.go:47-90 | adding a deleted label back with its old command restores the previous table |
| `CommandTable.UpdateLastWins` | main.go:68-73 | of two updates of one label, the second decides |
| `CommandTable.UpdateWithSameCommand` | main.go:68-73 | updating a label with the command it already has changes nothing |
| `CommandTable.ListCommands` | main.go:98-105 | "no commands stored" exactly when the table is empty; otherwise the listing holds every (label, command) pair of the table and nothing else, as many pairs as entries |
| `CommandTable.Matching` | main.go:189-190 | a label is in the result exactly when it is in the table and its label or command contains the keyword, and it keeps its command |
| `CommandTable.SearchCommands` | main.go:188-197 | the loop collects exactly the entries whose label or command contains the keyword, case-sensitively; `found` is false (the "no matching commands" notice) exactly when no entry matches |
| `CommandTable.EmptyKeywordMatchesAll` | main.go:190 | searching for the empty keyword gives the whole table |
| `CommandTable.SearchFindsEntry` | main.go:190 | searching for a stored label, or for any part of a stored command, finds that entry |
| `CommandTable.Merge` | main.go:229-231 | the merged keys are the union of existing and imported keys; imported labels take the imported command; labels only in the existing table keep theirs |
| `CommandTable.ImportCommands` | main.go:228-233 | the loop's result is the merge of the two tables, and the reported count is the size of the imported table |
| `CommandTable.MergeByEntries` | main.go:229-231 | a table with the merged keys and the merged command under each key is the merge |
| `CommandTable.MergeIntoEmpty` | main.go:228-231 | importing into an empty table yields the imported table |
| `CommandTable.MergeWithItself` | main.go:229-231 | importing a table into itself leaves the table as it was |
| `CommandTable.MergeTwice` | main.go:229-231 | importing the same table twice has the effect of importing it once |
| `CommandTable.DecideEdit` | main.go:171-179 | the edited text is stored exactly when, trimmed, it is non-empty and differs from the untrimmed stored command; what is stored is non-empty, has no whitespace at its ends and differs from the old command |
| `CommandTable.EditCommand` | main.go:139-179 | a missing label is not-found; a failed temporary-file step changes nothing; after the editor, the label is rewritten exactly when the trimmed text is non-empty and differs from the stored command, and then only that label changes, to the trimmed text (non-empty, no whitespace at its ends), with the key set preserved; "no changes" leaves the table as it was |
| `CommandTable.EditPaddingIsNoChange` | main.go:171-173 | saving a command with no whitespace at its ends, possibly with whitespace added around it, is no change |
| `CommandTable.EditTrimsUntrimmedCommand` | main.go:171-173 | a stored command `"ls "` saved unchanged as `"ls \n"` is rewritten to `"ls"`, because the comparison is with the untrimmed stored command |
| `CommandTable.EditToBlankIsNoChange` | main.go:173 | saving only whitespace is no change |
| `CommandTable.EditTwice` | main.go:171-175 | repeating an edit that changed the table, with the same text, changes nothing the second time |
| `Cli.ParseArgs` | main.go:250-327 | no action or an unknown action gives the usage text; a known action with fewer arguments than it needs (4 for add and update, 2 for list, 3 otherwise) gives its usage line; otherwise the label, keyword or path is `args[2]` and the command is `args[3..]` joined with single spaces |
| `Cli.QuotedCommandStoredVerbatim` | main.go:264-275 | a command given as one argument is stored exactly as given |
| `Cli.StoredCommandSplitsIntoWords` | main.go:264-265 | a command given as several space-free words is stored so that splitting it at spaces gives the words back |
| `Cli.LoadCommands` | main.go:23-37 | a missing file loads as an empty table without error; an unreadable file is an error with no table (nil); a malformed file is an error with whatever decoding filled in; a stored table loads as itself |
| `Cli.Commit` | main.go:57-59 | a table operation's table is handed to the store exactly when its outcome is added, updated, deleted or edited |
| `Cli.ImportInto` | main.go:215-233 | an unreadable import file reports the read error and saves nothing; an import file that is not valid JSON reports the invalid format and saves nothing; otherwise the imported table is merged into what the load returned, ignoring its error, and the count is the imported size; into the nil table of an unreadable store a non-empty import panics and an empty one saves the empty table |
| `Cli.OnTable` | main.go:47-213 | on a loaded table: add saves the table with the new entry, or reports the conflict and saves nothing; update saves the table with the label's command replaced, or reports not-found; delete saves the table without the label, or reports not-found; edit saves the table with the trimmed text in place exactly when it is non-empty and differs from the stored command; list reports the listing; run reports the stored command or not-found; search reports the matching entries or the no-match notice; export reports the whole table; only add, update, delete and edit save |
| `Cli.Perform` | main.go:249-327 | usage lines change nothing; list, run, search and export never save; a failed load stops every action except import; on a loaded table every other action has the effect `OnTable` states; a save outside import follows only an outcome that saves; import behaves as `ImportInto` |
| `Cli.Execute` | main.go:249-327 | no action or an unknown one prints the usage text; a known action with too few arguments prints its usage line; a failed load stops every action except import; a table is handed to the store only by add or update with at least four arguments, or by delete, edit or import with at least three |
| `Cli.ShortOrUnknownArgsTouchNothing` | main.go:251-253 | too few arguments or an unknown action prints usage and hands nothing to the store |
| `Cli.AddThenListShowsEntry` | main.go:57-105 | after adding a new label, the saved table lists that label with its command |
| `Cli.AddExistingLabelSavesNothing` | main.go:53-56 | adding an existing label reports the conflict and saves nothing |
| `Cli.EmptyCommandIsStored` | main.go:260-266 | `butiki add x ""` stores x with the empty command |
| `Cli.ExportThenImportRestores` | main.go:200-233 | exporting reports the whole table, and importing that table into an absent store saves exactly it and reports its size |
| `Cli.ImportExample` | main.go:228-233 | importing {"a": "1", "b": "2"} into {"a": "0", "c": "3"} saves {"a": "1", "b": "2", "c": "3"} and reports 2 |
| `Cli.SearchReportsMatching` | main.go:182-198 | `search` on a stored table reports its matching entries, or the no-match notice when there are none, and saves nothing |
| `Cli.SearchExampleNoMatch` | main.go:188-197 | in {"build": "make all"}, searching "xyz" finds nothing |
| `Cli.SearchExampleMatch` | main.go:188-197 | in {"build": "make all"}, searching "make" finds the one entry |
| `Cli.AddJoinsWords` | main.go:259-266 | `add` with the command typed as several words saves the table with the words joined by single spaces under a new label, or reports the conflict and saves nothing |
| `Cli.UpdateJoinsWords` | main.go:268-275 | `update` with several words saves the table with the label's command replaced by the joined words, or reports not-found and saves nothing |
| `Cli.DeleteRemovesLabel` | main.go:277-283 | `delete` saves the table without the label, or reports not-found and saves nothing; extra arguments are ignored |
| `Cli.ListReportsTable` | main.go:285-286 | `list` reports the listing of the stored table and saves nothing, whatever follows it |
| `Cli.RunHandsCommandToShell` | main.go:288-294 | `run` reports the stored command handed to the shell, or not-found, and saves nothing |
| `Cli.EditStoresTrimmedText` | main.go:296-302 | `edit` with text that, trimmed, is non-empty and differs from the stored command saves the table with the trimmed text in its place and reports the edit |
| `Cli.EditUnchangedSavesNothing` | main.go:171-179 | editing a command with no whitespace at its ends and saving the same text, with or without surrounding whitespace, saves nothing and reports no changes |

## Left out

- Resolving the home directory and the store path (main.go:13-21), the file
  operations, and the panic when the home directory cannot be found: these are
  operating-system I/O. The store is the abstract `StoreFile`, with "no file
  means an empty table" as the only load rule.
- JSON encoding and decoding (main.go:35, main.go:40, main.go:206,
  main.go:222): library calls. A saved table is assumed to load back as the same
  table, and an import file is given as what decoding produced. The
  `MarshalIndent` error branch (main.go:206-210) is not modelled, because
  encoding a string-to-string map does not fail.
- Cli.ImportInto: saving a nil map writes the JSON `null`. A later load turns
  that into a nil map, and a later `add` would then panic. The model does not
  tell a nil map from an empty one once it is saved. It treats both as the
  empty table.
- Running the command with `bash -c`, choosing and starting `$EDITOR` (default
  `nano`), and creating, writing and removing the temporary file (main.go:120-129,
  main.go:145-166): subprocesses and I/O. `run` reports the command string it
  would hand to the shell (`Running`). `edit` takes the editor step's result as
  the input `EditSession`.
- Errors from `saveCommands` and `os.WriteFile` are ignored by the source
  (main.go:58, 73, 88, 175, 211, 232). The model records only the table handed
  to the store.
- Go's map iteration order (main.go:103, main.go:189) is unspecified. Listing
  and search results are a set of pairs and a map. The search loop picks its
  next key arbitrarily.
- Strings.TrimSpace: whitespace is the ASCII set (tab, newline, vertical tab,
  form feed, carriage return, space). Go's Unicode fallback for non-ASCII input,
  which also strips characters such as U+0085 and U+00A0, is not modelled.
- Go strings are byte sequences; the model's are sequences of characters.
  Substring search and ASCII trimming agree with Go on valid UTF-8. A label or
  command holding invalid UTF-8, which an argument can carry, has no
  representation here. `json.MarshalIndent` rewrites such bytes to U+FFFD, so
  for them a save followed by a load is not the identity the model assumes.
- The printed text, the usage listing (main.go:236-247) and the exit status are
  not modelled. Each message is an outcome or report constructor instead.
