/** The label-to-command table and the rule each subcommand of the tool
    applies to it: add, update, delete, list, search, the merge step of
    import and the keep-or-store decision of edit.

    Every subcommand loads the table afresh into a map of its own, changes
    that map and hands it to the store. No other reference to the map
    exists, so each operation here takes the loaded table and returns the
    table it would hand to the store, together with an outcome tag in place
    of the printed message. */
module CommandTable {
  import opened Strings

  /** Labels to command strings; a label occurs at most once. */
  type Table = map<string, string>

  datatype Outcome =
    | Added | LabelExists
    | Updated | Deleted | LabelNotFound
    | Edited | NoChanges | TempFileFailed | ReadBackFailed
  {
    /** The outcomes after which the table is handed to the store. */
    predicate Saves() {
      this == Added || this == Updated || this == Deleted || this == Edited
    }
  }

  /** The table after an operation, and what the operation reports. */
  datatype Change = Change(table: Table, outcome: Outcome)

  // ---------------------------------------------------------------- add, update, delete

  /** `add`: inserts only a new label; an existing label is a conflict. */
  function AddCommand(commands: Table, name: string, command: string): (c: Change)
    ensures c.outcome == Added || c.outcome == LabelExists
    ensures c.outcome == LabelExists <==> name in commands
    ensures c.outcome == LabelExists ==> c.table == commands
    ensures c.outcome == Added ==>
      && c.table.Keys == commands.Keys + {name}
      && c.table[name] == command
      && forall k :: k in commands ==> c.table[k] == commands[k]
  {
    if name in commands then Change(commands, LabelExists)
    else Change(commands[name := command], Added)
  }

  /** `update`: overwrites only an existing label; a missing label is reported. */
  function UpdateCommand(commands: Table, name: string, command: string): (c: Change)
    ensures c.outcome == Updated || c.outcome == LabelNotFound
    ensures c.outcome == LabelNotFound <==> name !in commands
    ensures c.outcome == LabelNotFound ==> c.table == commands
    ensures c.outcome == Updated ==>
      && c.table.Keys == commands.Keys
      && c.table[name] == command
      && forall k :: k in commands && k != name ==> c.table[k] == commands[k]
  {
    if name !in commands then Change(commands, LabelNotFound)
    else Change(commands[name := command], Updated)
  }

  /** `delete`: removes only an existing label; a missing label is reported. */
  function DeleteCommand(commands: Table, name: string): (c: Change)
    ensures c.outcome == Deleted || c.outcome == LabelNotFound
    ensures c.outcome == LabelNotFound <==> name !in commands
    ensures c.outcome == LabelNotFound ==> c.table == commands
    ensures c.outcome == Deleted ==>
      && c.table.Keys == commands.Keys - {name}
      && |c.table| == |commands| - 1
      && forall k :: k in c.table ==> c.table[k] == commands[k]
  {
    if name !in commands then Change(commands, LabelNotFound)
    else Change(commands - {name}, Deleted)
  }

  /** Deleting a label just added gives back the table from before. */
  lemma DeleteUndoesAdd(commands: Table, name: string, command: string)
    requires name !in commands
    ensures DeleteCommand(AddCommand(commands, name, command).table, name)
            == Change(commands, Deleted)
  {
    assert commands[name := command] - {name} == commands;
  }

  /** Adding a deleted label back with its old command gives back the table. */
  lemma AddUndoesDelete(commands: Table, name: string)
    requires name in commands
    ensures AddCommand(DeleteCommand(commands, name).table, name, commands[name])
            == Change(commands, Added)
  {
    assert (commands - {name})[name := commands[name]] == commands;
  }

  /** Of two updates of one label, the second decides. */
  lemma UpdateLastWins(commands: Table, name: string, first: string, second: string)
    ensures UpdateCommand(UpdateCommand(commands, name, first).table, name, second)
            == UpdateCommand(commands, name, second)
  {
  }

  /** Updating a label with the command it already has changes nothing. */
  lemma UpdateWithSameCommand(commands: Table, name: string)
    requires name in commands
    ensures UpdateCommand(commands, name, commands[name]) == Change(commands, Updated)
  {
  }

  // ---------------------------------------------------------------- list

  /** What `list` prints: the empty-table notice, or every entry. */
  datatype Listing = NoCommandsStored | Entries(entries: set<(string, string)>)

  /** `list`: the empty-table notice exactly when there are no entries,
      otherwise every (label, command) pair of the table, once each. */
  function ListCommands(commands: Table): (l: Listing)
    ensures l == NoCommandsStored <==> |commands| == 0
    ensures l.Entries? ==>
      && |l.entries| == |commands|
      && forall name, command :: (name, command) in l.entries <==>
           name in commands && commands[name] == command
  {
    if |commands| == 0 then NoCommandsStored else Entries(commands.Items)
  }

  // ---------------------------------------------------------------- search

  /** An entry matches a keyword when its label or its command contains the
      keyword, case-sensitively. */
  predicate IsMatch(name: string, command: string, keyword: string) {
    Contains(name, keyword) || Contains(command, keyword)
  }

  /** The entries of `commands` that match `keyword`. */
  function Matching(commands: Table, keyword: string): (r: Table)
    ensures forall l :: l in r <==> l in commands && IsMatch(l, commands[l], keyword)
    ensures forall l :: l in r ==> r[l] == commands[l]
  {
    map l | l in commands && IsMatch(l, commands[l], keyword) :: commands[l]
  }

  /** `search`: walks the table, collecting each matching entry and setting
      `found` on the first. The result is exactly the matching entries, and
      `found` is false (the no-match notice) exactly when there are none. */
  method SearchCommands(commands: Table, keyword: string) returns (matches: Table, found: bool)
    ensures forall l :: l in matches <==> l in commands && IsMatch(l, commands[l], keyword)
    ensures forall l :: l in matches ==> matches[l] == commands[l]
    ensures found <==> matches.Keys != {}
    ensures matches == Matching(commands, keyword)
  {
    matches := map[];
    found := false;
    var pending := commands.Keys;
    while pending != {}
      invariant pending <= commands.Keys
      invariant forall l :: l in matches <==>
                  l in commands && l !in pending && IsMatch(l, commands[l], keyword)
      invariant forall l :: l in matches ==> matches[l] == commands[l]
      invariant found <==> matches.Keys != {}
      decreases pending
    {
      var name :| name in pending;
      var command := commands[name];
      if Contains(name, keyword) || Contains(command, keyword) {
        matches := matches[name := command];
        found := true;
      }
      pending := pending - {name};
    }
  }

  /** The empty keyword matches every entry. */
  lemma {:induction false} EmptyKeywordMatchesAll(commands: Table)
    ensures Matching(commands, "") == commands
  {
    forall l | l in commands ensures IsMatch(l, commands[l], "") {
      ContainsEmpty(l);
    }
  }

  /** Searching for a stored label, or for any part of a stored command,
      finds that entry. */
  lemma {:induction false} SearchFindsEntry(commands: Table, name: string, i: nat, j: nat)
    requires name in commands
    ensures name in Matching(commands, name)
    ensures i <= j <= |commands[name]| ==>
              name in Matching(commands, commands[name][i..j])
  {
    ContainsSlice(name, 0, |name|);
    assert name[0..|name|] == name;
    if i <= j <= |commands[name]| {
      ContainsSlice(commands[name], i, j);
    }
  }

  // ---------------------------------------------------------------- import

  /** The table after importing: every imported entry, and every existing
      entry whose label is not imported. */
  function Merge(commands: Table, imported: Table): (r: Table)
    ensures r.Keys == commands.Keys + imported.Keys
    ensures forall k :: k in imported ==> r[k] == imported[k]
    ensures forall k :: k in commands && k !in imported ==> r[k] == commands[k]
  {
    commands + imported
  }

  /** The merge loop of `import`: assigns every imported entry into the
      table, so the imported command wins on a shared label. The count
      reported is the size of the imported table, not the number of entries
      that are new or changed. */
  method ImportCommands(commands: Table, imported: Table) returns (merged: Table, count: nat)
    ensures merged == Merge(commands, imported)
    ensures count == |imported|
  {
    merged := commands;
    var pending := imported.Keys;
    while pending != {}
      invariant pending <= imported.Keys
      invariant forall k :: k in merged <==> k in commands || (k in imported && k !in pending)
      invariant forall k :: k in imported && k !in pending ==> merged[k] == imported[k]
      invariant forall k :: k in commands && (k !in imported || k in pending) ==>
                  merged[k] == commands[k]
      decreases pending
    {
      var name :| name in pending;
      merged := merged[name := imported[name]];
      pending := pending - {name};
    }
    MergeByEntries(commands, imported, merged);
    count := |imported|;
  }

  /** A table with the merge's labels and the merge's command under each is the merge. */
  lemma MergeByEntries(commands: Table, imported: Table, merged: Table)
    requires forall k :: k in merged <==> k in commands || k in imported
    requires forall k :: k in imported ==> merged[k] == imported[k]
    requires forall k :: k in commands && k !in imported ==> merged[k] == commands[k]
    ensures merged == Merge(commands, imported)
  {
    assert merged.Keys == Merge(commands, imported).Keys;
  }

  /** Importing into an empty table yields the imported table. */
  lemma MergeIntoEmpty(imported: Table)
    ensures Merge(map[], imported) == imported
  {
  }

  /** Importing a table into itself changes nothing. */
  lemma MergeWithItself(commands: Table)
    ensures Merge(commands, commands) == commands
  {
  }

  /** Importing the same file twice has the effect of importing it once. */
  lemma MergeTwice(commands: Table, imported: Table)
    ensures Merge(Merge(commands, imported), imported) == Merge(commands, imported)
  {
  }

  // ---------------------------------------------------------------- edit

  /** What the editor step yields: the temporary file could not be
      created, it could not be read back after the editor exited, or the
      text it held then. */
  datatype EditSession = TempFileNotCreated | TempFileNotRead | EditorSaved(text: string)

  datatype EditDecision = Keep | Store(command: string)

  /** The decision after editing: the edited text, trimmed, is stored when
      it is non-empty and differs from the stored command, which is compared
      as stored, untrimmed. A stored result is non-empty, has no whitespace
      at either end, and is the edited text without its surrounding space. */
  function DecideEdit(oldCommand: string, edited: string): (d: EditDecision)
    ensures d.Keep? <==> TrimSpace(edited) == "" || TrimSpace(edited) == oldCommand
    ensures d.Store? ==>
      && d.command == TrimSpace(edited)
      && d.command != "" && d.command != oldCommand && IsTrimmed(d.command)
  {
    var newCommand := TrimSpace(edited);
    if newCommand != "" && newCommand != oldCommand then Store(newCommand) else Keep
  }

  /** `edit`: a missing label is reported; an editor step that fails leaves
      the table alone; otherwise only that label may change, to the trimmed
      edited text, and "no changes" is reported when the decision is to keep. */
  function EditCommand(commands: Table, name: string, session: EditSession): (c: Change)
    ensures c.outcome in {LabelNotFound, TempFileFailed, ReadBackFailed, Edited, NoChanges}
    ensures c.outcome == LabelNotFound <==> name !in commands
    ensures c.outcome == TempFileFailed <==> name in commands && session.TempFileNotCreated?
    ensures c.outcome == ReadBackFailed <==> name in commands && session.TempFileNotRead?
    ensures name in commands && session.EditorSaved? ==>
      (c.outcome == Edited <==>
         TrimSpace(session.text) != "" && TrimSpace(session.text) != commands[name])
    ensures c.outcome != Edited ==> c.table == commands
    ensures c.outcome == Edited ==>
      && name in commands && session.EditorSaved?
      && c.table.Keys == commands.Keys
      && c.table[name] == TrimSpace(session.text) != commands[name]
      && c.table[name] != "" && IsTrimmed(c.table[name])
      && forall k :: k in commands && k != name ==> c.table[k] == commands[k]
  {
    if name !in commands then Change(commands, LabelNotFound)
    else match session
      case TempFileNotCreated => Change(commands, TempFileFailed)
      case TempFileNotRead => Change(commands, ReadBackFailed)
      case EditorSaved(text) =>
        match DecideEdit(commands[name], text)
        case Store(newCommand) => Change(commands[name := newCommand], Edited)
        case Keep => Change(commands, NoChanges)
  }

  /** Saving a trimmed command again, or with whitespace around it such as
      the newline an editor appends, is no change. */
  lemma {:induction false} EditPaddingIsNoChange(oldCommand: string, before: string, after: string)
    requires IsTrimmed(oldCommand) && AllSpace(before) && AllSpace(after)
    ensures DecideEdit(oldCommand, before + oldCommand + after) == Keep
  {
    TrimSpaceOfPadded(before, oldCommand, after);
  }

  /** A command stored with surrounding whitespace (possible through `add`)
      is rewritten, trimmed, even when the text is saved untouched: the
      comparison is with the untrimmed stored command. */
  lemma {:induction false} EditTrimsUntrimmedCommand()
    ensures DecideEdit("ls ", "ls \n") == Store("ls")
  {
    assert "ls \n" == "" + "ls" + " \n";
    TrimSpaceOfPadded("", "ls", " \n");
  }

  /** Only whitespace in the editor is no change. */
  lemma {:induction false} EditToBlankIsNoChange(oldCommand: string, blank: string)
    requires AllSpace(blank)
    ensures DecideEdit(oldCommand, blank) == Keep
  {
    assert blank == blank + "" + "";
    TrimSpaceOfPadded(blank, "", "");
  }

  /** Repeating an edit with the same text changes nothing the second time. */
  lemma EditTwice(commands: Table, name: string, session: EditSession)
    requires EditCommand(commands, name, session).outcome == Edited
    ensures EditCommand(EditCommand(commands, name, session).table, name, session)
            == Change(EditCommand(commands, name, session).table, NoChanges)
  {
  }
}
