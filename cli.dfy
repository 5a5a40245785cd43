/** The command line of the tool, `butiki <action> <arguments...>`, and what
    one invocation does: the table it hands to the store, if any, and what it
    reports.

    The store file is an input (what the load finds), the content of a file
    to import and the outcome of the editor step are inputs, and the effect
    records the table handed to the store without claiming that writing it
    succeeded. Writing the store and reading it back is taken to give the
    same table. */
module Cli {
  import opened Strings
  import opened CommandTable

  // ---------------------------------------------------------------- arguments

  /** What one run of the tool is asked to do, once the arguments are checked. */
  datatype Invocation =
    | Usage                        // no action, or an unknown one: the full usage text
    | ActionUsage(action: string)  // a known action with too few arguments: its usage line
    | Add(name: string, command: string)
    | Update(name: string, command: string)
    | Delete(name: string)
    | List
    | Run(name: string)
    | Edit(name: string)
    | Search(keyword: string)
    | Export(path: string)
    | Import(path: string)

  predicate IsAction(a: string) {
    a in {"add", "update", "delete", "list", "run", "edit", "search", "export", "import"}
  }

  /** How many arguments, the program name included, an action needs. */
  function MinArgs(action: string): nat {
    if action == "add" || action == "update" then 4
    else if action == "list" then 2
    else 3
  }

  /** The argument checks of the entry point. `args[0]` is the program name
      and `args[1]` the action; `add` and `update` take the label and join
      every later argument with single spaces into the command. */
  function ParseArgs(args: seq<string>): (inv: Invocation)
    ensures inv == Usage <==> |args| < 2 || !IsAction(args[1])
    ensures inv.ActionUsage? <==> |args| >= 2 && IsAction(args[1]) && |args| < MinArgs(args[1])
    ensures inv.ActionUsage? ==> inv.action == args[1]
    ensures !inv.Usage? && !inv.ActionUsage? ==> |args| >= MinArgs(args[1])
    ensures inv.Add? ==> args[1] == "add" && inv.name == args[2] && inv.command == Join(args[3..], " ")
    ensures inv.Update? ==> args[1] == "update" && inv.name == args[2] && inv.command == Join(args[3..], " ")
    ensures inv.Delete? ==> args[1] == "delete" && inv.name == args[2]
    ensures inv.List? ==> args[1] == "list"
    ensures inv.Run? ==> args[1] == "run" && inv.name == args[2]
    ensures inv.Edit? ==> args[1] == "edit" && inv.name == args[2]
    ensures inv.Search? ==> args[1] == "search" && inv.keyword == args[2]
    ensures inv.Export? ==> args[1] == "export" && inv.path == args[2]
    ensures inv.Import? ==> args[1] == "import" && inv.path == args[2]
  {
    if |args| < 2 then Usage
    else
      var action := args[1];
      if action == "add" then
        if |args| < 4 then ActionUsage(action) else Add(args[2], Join(args[3..], " "))
      else if action == "update" then
        if |args| < 4 then ActionUsage(action) else Update(args[2], Join(args[3..], " "))
      else if action == "delete" then
        if |args| < 3 then ActionUsage(action) else Delete(args[2])
      else if action == "list" then
        List
      else if action == "run" then
        if |args| < 3 then ActionUsage(action) else Run(args[2])
      else if action == "edit" then
        if |args| < 3 then ActionUsage(action) else Edit(args[2])
      else if action == "search" then
        if |args| < 3 then ActionUsage(action) else Search(args[2])
      else if action == "export" then
        if |args| < 3 then ActionUsage(action) else Export(args[2])
      else if action == "import" then
        if |args| < 3 then ActionUsage(action) else Import(args[2])
      else
        Usage
  }

  /** A command typed as one quoted argument is stored as it is. */
  lemma QuotedCommandStoredVerbatim(name: string, command: string)
    ensures ParseArgs(["butiki", "add", name, command]) == Add(name, command)
    ensures ParseArgs(["butiki", "update", name, command]) == Update(name, command)
  {
    assert ["butiki", "add", name, command][3..] == [command];
    assert ["butiki", "update", name, command][3..] == [command];
  }

  /** A command typed as several words is stored so that splitting it at
      single spaces gives the words back, as long as no word holds a space. */
  lemma {:induction false} StoredCommandSplitsIntoWords(name: string, words: seq<string>)
    requires |words| >= 1
    requires forall k :: 0 <= k < |words| ==> ' ' !in words[k]
    ensures ParseArgs(["butiki", "add", name] + words).Add?
    ensures Split(ParseArgs(["butiki", "add", name] + words).command, ' ') == words
  {
    var args := ["butiki", "add", name] + words;
    assert args[1] == "add" && args[2] == name && args[3..] == words;
    SplitJoin(words, ' ');
  }

  // ---------------------------------------------------------------- the store

  /** The store file as a load finds it. */
  datatype StoreFile =
    | Absent                     // no file yet
    | Unreadable                 // the file exists but reading it fails
    | Malformed(decoded: Table)  // not a label-to-command object; `decoded` is whatever
                                 // decoding filled in (empty on a syntax error)
    | Stored(table: Table)

  /** A map value as the load hands it back: nil, or an allocated table. */
  datatype MapValue = Nil | Allocated(table: Table)

  /** The table a load returns and whether it reports an error. */
  datatype Loaded = Loaded(commands: MapValue, failed: bool)

  /** Loading the store: a missing file is an empty table, not an error;
      a file that cannot be read is an error and gives no table at all; a
      malformed file is an error and gives whatever decoding filled in. */
  function LoadCommands(f: StoreFile): (l: Loaded)
    ensures !l.failed <==> f.Absent? || f.Stored?
    ensures !l.failed ==> l.commands.Allocated?
    ensures f.Absent? ==> l.commands.table == map[]
    ensures f.Stored? ==> l.commands.table == f.table
    ensures l.commands.Nil? <==> f.Unreadable?
    ensures f.Malformed? ==> l == Loaded(Allocated(f.decoded), true)
  {
    match f
    case Absent => Loaded(Allocated(map[]), false)
    case Unreadable => Loaded(Nil, true)
    case Malformed(decoded) => Loaded(Allocated(decoded), true)
    case Stored(table) => Loaded(Allocated(table), false)
  }

  /** A file named for import, as reading and decoding it finds it. */
  datatype ImportFile = ImportUnreadable | InvalidJson | Decoded(table: Table)

  // ---------------------------------------------------------------- effects

  /** Whether the invocation hands a table to the store. */
  datatype Persist = Untouched | SaveRequested(table: Table)

  /** What the invocation reports, in place of the printed text. */
  datatype Report =
    | PrintUsage
    | PrintActionUsage(action: string)
    | LoadError
    | Notice(outcome: Outcome)                  // add, update, delete, edit
    | Listed(listing: Listing)
    | CommandNotFound(name: string)
    | Running(name: string, command: string)    // the string handed to the shell
    | NoMatches
    | Matches(entries: Table)
    | Exported(path: string, table: Table)      // the table written to `path`
    | ImportReadFailed
    | InvalidFormat
    | Imported(count: nat)
    | NilMapPanic                               // assignment into a nil map

  datatype Effect = Effect(persist: Persist, report: Report)

  /** The effect of a table operation: its table goes to the store exactly
      when its outcome is one after which the source saves. */
  function Commit(c: Change): (e: Effect)
    ensures e.report == Notice(c.outcome)
    ensures e.persist.SaveRequested? <==> c.outcome.Saves()
    ensures e.persist.SaveRequested? ==> e.persist.table == c.table
  {
    Effect(if c.outcome.Saves() then SaveRequested(c.table) else Untouched, Notice(c.outcome))
  }

  /** `import`: an unreadable or undecodable file is reported and nothing is
      saved. Otherwise the store is loaded with any error ignored: into an
      allocated table (empty for a missing file, whatever decoding filled in
      for a malformed one) the imported entries are merged; into the nil table of
      an unreadable store the first assignment panics, and with nothing to
      import that nil table is saved as it is. */
  function ImportInto(store: StoreFile, importFile: ImportFile): (e: Effect)
    ensures !importFile.Decoded? ==> e.persist == Untouched
    ensures importFile.ImportUnreadable? ==> e == Effect(Untouched, ImportReadFailed)
    ensures importFile.InvalidJson? ==> e == Effect(Untouched, InvalidFormat)
    ensures importFile.Decoded? && !store.Unreadable? ==>
      e == Effect(SaveRequested(Merge(LoadCommands(store).commands.table, importFile.table)),
                  Imported(|importFile.table|))
    ensures importFile.Decoded? && store.Unreadable? ==>
      if |importFile.table| == 0 then e == Effect(SaveRequested(map[]), Imported(0))
      else e == Effect(Untouched, NilMapPanic)
  {
    match importFile
    case ImportUnreadable => Effect(Untouched, ImportReadFailed)
    case InvalidJson => Effect(Untouched, InvalidFormat)
    case Decoded(imported) =>
      match LoadCommands(store).commands
      case Allocated(commands) => Effect(SaveRequested(Merge(commands, imported)), Imported(|imported|))
      case Nil =>
        if |imported| == 0 then Effect(SaveRequested(map[]), Imported(0))
        else Effect(Untouched, NilMapPanic)
  }

  /** The actions that need a successfully loaded table, applied to it. */
  function OnTable(inv: Invocation, commands: Table, session: EditSession): (e: Effect)
    requires !inv.Usage? && !inv.ActionUsage? && !inv.Import?
    ensures e.persist.SaveRequested? ==> inv.Add? || inv.Update? || inv.Delete? || inv.Edit?
    ensures inv.Add? ==>
      e == (if inv.name in commands then Effect(Untouched, Notice(LabelExists))
            else Effect(SaveRequested(commands[inv.name := inv.command]), Notice(Added)))
    ensures inv.Update? ==>
      e == (if inv.name !in commands then Effect(Untouched, Notice(LabelNotFound))
            else Effect(SaveRequested(commands[inv.name := inv.command]), Notice(Updated)))
    ensures inv.Delete? ==>
      e == (if inv.name !in commands then Effect(Untouched, Notice(LabelNotFound))
            else Effect(SaveRequested(commands - {inv.name}), Notice(Deleted)))
    ensures inv.Edit? ==> e.report == Notice(EditCommand(commands, inv.name, session).outcome)
    ensures inv.Edit? ==>
      e.persist == (if inv.name in commands && session.EditorSaved?
                       && TrimSpace(session.text) != "" && TrimSpace(session.text) != commands[inv.name]
                    then SaveRequested(commands[inv.name := TrimSpace(session.text)])
                    else Untouched)
    ensures inv.List? ==> e == Effect(Untouched, Listed(ListCommands(commands)))
    ensures inv.Run? ==>
      e == Effect(Untouched, if inv.name in commands then Running(inv.name, commands[inv.name])
                             else CommandNotFound(inv.name))
    ensures inv.Search? ==>
      e == Effect(Untouched, if Matching(commands, inv.keyword).Keys == {} then NoMatches
                             else Matches(Matching(commands, inv.keyword)))
    ensures inv.Export? ==> e == Effect(Untouched, Exported(inv.path, commands))
  {
    match inv
    case Add(name, command) => Commit(AddCommand(commands, name, command))
    case Update(name, command) => Commit(UpdateCommand(commands, name, command))
    case Delete(name) => Commit(DeleteCommand(commands, name))
    case Edit(name) => Commit(EditCommand(commands, name, session))
    case List => Effect(Untouched, Listed(ListCommands(commands)))
    case Run(name) =>
      if name in commands then Effect(Untouched, Running(name, commands[name]))
      else Effect(Untouched, CommandNotFound(name))
    case Search(keyword) =>
      var matches := Matching(commands, keyword);
      Effect(Untouched, if matches.Keys == {} then NoMatches else Matches(matches))
    case Export(path) => Effect(Untouched, Exported(path, commands))
  }

  /** One invocation after the argument checks. Usage text changes nothing;
      listing, running, searching and exporting never save; every action but
      import stops at a failed load; and a table is saved only after an add,
      update, delete or edit whose outcome saves, or by an import. */
  function Perform(inv: Invocation, store: StoreFile, importFile: ImportFile, session: EditSession): (e: Effect)
    ensures inv.Usage? ==> e == Effect(Untouched, PrintUsage)
    ensures inv.ActionUsage? ==> e == Effect(Untouched, PrintActionUsage(inv.action))
    ensures inv.List? || inv.Run? || inv.Search? || inv.Export? ==> e.persist == Untouched
    ensures !inv.Usage? && !inv.ActionUsage? && !inv.Import? && LoadCommands(store).failed ==>
              e == Effect(Untouched, LoadError)
    ensures e.persist.SaveRequested? && !inv.Import? ==>
              e.report.Notice? && e.report.outcome.Saves()
    ensures inv.Import? ==> e == ImportInto(store, importFile)
    ensures !inv.Usage? && !inv.ActionUsage? && !inv.Import? && !LoadCommands(store).failed ==>
              e == OnTable(inv, LoadCommands(store).commands.table, session)
  {
    match inv
    case Usage => Effect(Untouched, PrintUsage)
    case ActionUsage(action) => Effect(Untouched, PrintActionUsage(action))
    case Import(_) => ImportInto(store, importFile)
    case _ =>
      var loaded := LoadCommands(store);
      if loaded.failed then Effect(Untouched, LoadError)
      else OnTable(inv, loaded.commands.table, session)
  }

  /** One run of the tool on the argument vector `args`: without an action
      only the usage text is printed, and only `add`, `update`, `delete`,
      `edit` and `import`, given their arguments, can hand a table to the store. */
  function Execute(args: seq<string>, store: StoreFile, importFile: ImportFile, session: EditSession): (e: Effect)
    ensures |args| < 2 || !IsAction(args[1]) ==> e == Effect(Untouched, PrintUsage)
    ensures |args| >= 2 && IsAction(args[1]) && |args| < MinArgs(args[1]) ==>
              e == Effect(Untouched, PrintActionUsage(args[1]))
    ensures |args| >= 2 && IsAction(args[1]) && args[1] != "import" && |args| >= MinArgs(args[1])
            && LoadCommands(store).failed ==>
              e == Effect(Untouched, LoadError)
    ensures e.persist.SaveRequested? ==>
      && |args| >= 3
      && args[1] in {"add", "update", "delete", "edit", "import"}
      && (args[1] == "add" || args[1] == "update" ==> |args| >= 4)
  {
    Perform(ParseArgs(args), store, importFile, session)
  }

  // ---------------------------------------------------------------- properties of whole runs

  /** Too few arguments, or an unknown action, print usage and touch nothing. */
  lemma ShortOrUnknownArgsTouchNothing(args: seq<string>, store: StoreFile, importFile: ImportFile, session: EditSession)
    requires |args| < 2 || !IsAction(args[1]) || |args| < MinArgs(args[1])
    ensures Execute(args, store, importFile, session).persist == Untouched
    ensures Execute(args, store, importFile, session).report == PrintUsage
         || Execute(args, store, importFile, session).report == PrintActionUsage(args[1])
  {
  }

  /** A label added to the store is then listed with its command. */
  lemma {:induction false} AddThenListShowsEntry(commands: Table, name: string, command: string,
                                                 importFile: ImportFile, session: EditSession)
    requires name !in commands
    ensures Execute(["butiki", "add", name, command], Stored(commands), importFile, session).persist
            == SaveRequested(commands[name := command])
    ensures
      var listing := Execute(["butiki", "list"], Stored(commands[name := command]), importFile, session).report;
      listing.Listed? && listing.listing.Entries? && (name, command) in listing.listing.entries
  {
    QuotedCommandStoredVerbatim(name, command);
  }

  /** Adding a label that exists reports the conflict and saves nothing. */
  lemma {:induction false} AddExistingLabelSavesNothing(commands: Table, name: string, command: string,
                                                       importFile: ImportFile, session: EditSession)
    requires name in commands
    ensures Execute(["butiki", "add", name, command], Stored(commands), importFile, session)
            == Effect(Untouched, Notice(LabelExists))
  {
    QuotedCommandStoredVerbatim(name, command);
  }

  /** An empty command is stored like any other: `butiki add x ""` saves
      the entry x with the empty command, so stored commands can be empty. */
  lemma EmptyCommandIsStored(importFile: ImportFile, session: EditSession)
    ensures Execute(["butiki", "add", "x", ""], Absent, importFile, session)
            == Effect(SaveRequested(map["x" := ""]), Notice(Added))
  {
    QuotedCommandStoredVerbatim("x", "");
  }

  /** Exporting a table and importing the file into an empty store
      reproduces the table, assuming the file decodes to what was written. */
  lemma {:induction false} ExportThenImportRestores(commands: Table, path: string, session: EditSession)
    ensures
      var exported := Execute(["butiki", "export", path], Stored(commands), ImportUnreadable, session);
      exported == Effect(Untouched, Exported(path, commands))
    ensures Execute(["butiki", "import", path], Absent, Decoded(commands), session)
            == Effect(SaveRequested(commands), Imported(|commands|))
  {
    MergeIntoEmpty(commands);
  }

  /** Importing {"a": "1", "b": "2"} into {"a": "0", "c": "3"} saves
      {"a": "1", "b": "2", "c": "3"} and reports two entries. */
  lemma ImportExample(session: EditSession)
    ensures Execute(["butiki", "import", "f.json"], Stored(map["a" := "0", "c" := "3"]),
                    Decoded(map["a" := "1", "b" := "2"]), session)
            == Effect(SaveRequested(map["a" := "1", "b" := "2", "c" := "3"]), Imported(2))
  {
    assert "a" != "b";
    assert |map["a" := "1", "b" := "2"]| == 2;
    assert map["a" := "0", "c" := "3"] + map["a" := "1", "b" := "2"]
        == map["a" := "1", "b" := "2", "c" := "3"];
  }

  /** `search` on a loaded table reports its matching entries, or the
      no-match notice when there are none, and saves nothing. */
  lemma SearchReportsMatching(commands: Table, keyword: string, importFile: ImportFile, session: EditSession)
    ensures Execute(["butiki", "search", keyword], Stored(commands), importFile, session)
            == Effect(Untouched, if Matching(commands, keyword).Keys == {} then NoMatches
                                 else Matches(Matching(commands, keyword)))
  {
    assert ParseArgs(["butiki", "search", keyword]) == Search(keyword);
  }

  /** With the store {"build": "make all"}, searching "xyz" finds nothing. */
  lemma SearchExampleNoMatch(importFile: ImportFile, session: EditSession)
    ensures Execute(["butiki", "search", "xyz"], Stored(map["build" := "make all"]), importFile, session)
            == Effect(Untouched, NoMatches)
  {
    ContainedFirstChar("build", "xyz");
    ContainedFirstChar("make all", "xyz");
    assert !IsMatch("build", "make all", "xyz");
    assert Matching(map["build" := "make all"], "xyz").Keys == {};
    SearchReportsMatching(map["build" := "make all"], "xyz", importFile, session);
  }

  /** With the store {"build": "make all"}, searching "make" finds the entry. */
  lemma SearchExampleMatch(importFile: ImportFile, session: EditSession)
    ensures Execute(["butiki", "search", "make"], Stored(map["build" := "make all"]), importFile, session)
            == Effect(Untouched, Matches(map["build" := "make all"]))
  {
    ContainsSlice("make all", 0, 4);
    assert "make all"[0..4] == "make";
    assert IsMatch("build", "make all", "make");
    var found := Matching(map["build" := "make all"], "make");
    assert "build" in found.Keys;
    assert found == map["build" := "make all"];
    SearchReportsMatching(map["build" := "make all"], "make", importFile, session);
  }

  /** Editing a command without whitespace at its ends, and saving the same
      text, possibly with whitespace around it, saves nothing. */
  lemma {:induction false} EditUnchangedSavesNothing(commands: Table, name: string,
                                                    before: string, after: string, importFile: ImportFile)
    requires name in commands && IsTrimmed(commands[name])
    requires AllSpace(before) && AllSpace(after)
    ensures Execute(["butiki", "edit", name], Stored(commands), importFile,
                    EditorSaved(before + commands[name] + after))
            == Effect(Untouched, Notice(NoChanges))
  {
    EditPaddingIsNoChange(commands[name], before, after);
  }

  /** `add` with the command typed as several words stores the words joined
      with single spaces under a new label, and reports a conflict otherwise. */
  lemma AddJoinsWords(commands: Table, name: string, words: seq<string>,
                      importFile: ImportFile, session: EditSession)
    requires |words| >= 1
    ensures Execute(["butiki", "add", name] + words, Stored(commands), importFile, session)
            == if name in commands then Effect(Untouched, Notice(LabelExists))
               else Effect(SaveRequested(commands[name := Join(words, " ")]), Notice(Added))
  {
    var args := ["butiki", "add", name] + words;
    assert args[1] == "add" && args[2] == name && args[3..] == words;
    var command := Join(words, " ");
    assert ParseArgs(args) == Add(name, command);
    assert Execute(args, Stored(commands), importFile, session)
        == Perform(Add(name, command), Stored(commands), importFile, session);
    assert Perform(Add(name, command), Stored(commands), importFile, session)
        == OnTable(Add(name, command), commands, session);
  }

  /** `update` with the command typed as several words replaces the command
      of an existing label by the words joined with single spaces. */
  lemma UpdateJoinsWords(commands: Table, name: string, words: seq<string>,
                         importFile: ImportFile, session: EditSession)
    requires |words| >= 1
    ensures Execute(["butiki", "update", name] + words, Stored(commands), importFile, session)
            == if name in commands then Effect(SaveRequested(commands[name := Join(words, " ")]), Notice(Updated))
               else Effect(Untouched, Notice(LabelNotFound))
  {
    var args := ["butiki", "update", name] + words;
    assert args[1] == "update" && args[2] == name && args[3..] == words;
    var command := Join(words, " ");
    assert ParseArgs(args) == Update(name, command);
    assert Execute(args, Stored(commands), importFile, session)
        == Perform(Update(name, command), Stored(commands), importFile, session);
    assert Perform(Update(name, command), Stored(commands), importFile, session)
        == OnTable(Update(name, command), commands, session);
  }

  /** `delete` saves the table without the label, or reports that it is
      missing and saves nothing; further arguments are ignored. */
  lemma DeleteRemovesLabel(commands: Table, name: string, extra: seq<string>,
                           importFile: ImportFile, session: EditSession)
    ensures Execute(["butiki", "delete", name] + extra, Stored(commands), importFile, session)
            == if name in commands then Effect(SaveRequested(commands - {name}), Notice(Deleted))
               else Effect(Untouched, Notice(LabelNotFound))
  {
    var args := ["butiki", "delete", name] + extra;
    assert args[1] == "delete" && args[2] == name;
  }

  /** `list` reports the stored table and saves nothing. */
  lemma ListReportsTable(commands: Table, extra: seq<string>, importFile: ImportFile, session: EditSession)
    ensures Execute(["butiki", "list"] + extra, Stored(commands), importFile, session)
            == Effect(Untouched, Listed(ListCommands(commands)))
  {
    var args := ["butiki", "list"] + extra;
    assert args[1] == "list";
  }

  /** `run` hands the stored command of the label to the shell, or reports
      the label as missing; either way nothing is saved. */
  lemma RunHandsCommandToShell(commands: Table, name: string, extra: seq<string>,
                               importFile: ImportFile, session: EditSession)
    ensures Execute(["butiki", "run", name] + extra, Stored(commands), importFile, session)
            == Effect(Untouched, if name in commands then Running(name, commands[name])
                                 else CommandNotFound(name))
  {
    var args := ["butiki", "run", name] + extra;
    assert args[1] == "run" && args[2] == name;
  }

  /** Editing a command into text that, trimmed, is non-empty and differs
      from the stored command saves the table with the trimmed text in its place. */
  lemma EditStoresTrimmedText(commands: Table, name: string, text: string, importFile: ImportFile)
    requires name in commands
    requires TrimSpace(text) != "" && TrimSpace(text) != commands[name]
    ensures Execute(["butiki", "edit", name], Stored(commands), importFile, EditorSaved(text))
            == Effect(SaveRequested(commands[name := TrimSpace(text)]), Notice(Edited))
  {
  }
}
