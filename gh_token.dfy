/**
 * `main()` of gh-token: resolve the command line, check the database file
 * and the GitHub user, and for `add` decrypt the KeePass file, offer the
 * display titles in a fuzzy menu and store the chosen token in the login
 * keychain; for `rm` delete the keychain item. The outcome fixes the exit
 * status.
 */
module GhToken {
  import opened Wrappers
  import opened Text
  import opened Cli
  import opened Entries
  import opened Selection
  import opened Keychain

  /**
   * What `main` learns from outside the program: the file-system test, the
   * GitHub probe, the typed password and `KEY_FILE`, the KeePass decryption
   * (`None` when it raises), the menu's answer, and the return code of the
   * `security` process.
   */
  datatype Host = Host(
    isFile: string -> bool,
    profileExists: string -> bool,
    password: string,
    keyFile: Option<string>,
    openDatabase: (string, string, Option<string>) -> Option<seq<Entry>>,
    pick: seq<string> -> Option<string>,
    run: seq<string> -> int)

  /** How the `security` call ended, as the script reports it. */
  datatype Report = Succeeded(operation: string) | Failed(returnCode: int)

  /** Where `main` stopped. */
  datatype Outcome =
    | ShowedVersion
    | ShowedUsage
    | FileNotFound(path: string)
    | UserNotFound(url: string)
    | UnknownOperation(operation: string)
    | OpenFailed
    | SelectionCancelled
    | SelectionNotFound(selection: string)
    | Ran(argv: seq<string>, report: Report)

  /** The profile page whose existence stands for the GitHub user's. */
  function ProfileUrl(user: string): (url: string)
    ensures StartsWith(url, "https://github.com/")
    ensures url[|"https://github.com/"|..] == user
  {
    "https://github.com/" + user
  }

  /** The value `main` hands to `sys.exit`, a `return` counting as 0. */
  function ExitCode(o: Outcome): (code: int)
    ensures !o.Ran? ==> (code == 0 <==> o == ShowedVersion) && (code == 0 || code == 1)
    ensures o.Ran? && o.report.Succeeded? ==> code == 0
    ensures o.Ran? && o.report.Failed? ==> code == o.report.returnCode
  {
    match o
    case ShowedVersion => 0
    case Ran(_, Succeeded(_)) => 0
    case Ran(_, Failed(rc)) => rc
    case _ => 1
  }

  /** Every stop before the keychain command, other than the version, is exit code 1. */
  lemma EarlyExitsFail(o: Outcome)
    requires !o.Ran? && o != ShowedVersion
    ensures ExitCode(o) == 1
  {
  }

  /** The status the process ends with: POSIX keeps the low eight bits of the exit code. */
  function ProcessStatus(code: int): (status: int)
    ensures 0 <= status < 256
    ensures 0 <= code < 256 ==> status == code
    ensures (status - code) % 256 == 0
  {
    code % 256
  }

  /** Reading the return code of `security`: 0 is success, anything else is passed on. */
  function Interpret(verb: string, returnCode: int): (r: Report)
    ensures r.Succeeded? <==> returnCode == 0
    ensures r.Succeeded? ==> r.operation == verb
    ensures r.Failed? ==> r.returnCode == returnCode
  {
    if returnCode == 0 then Succeeded(verb) else Failed(returnCode)
  }

  /** Whatever `security` returns, `main` exits with that same code, 0 included. */
  lemma ExitCodeIsReturnCode(argv: seq<string>, verb: string, returnCode: int)
    ensures ExitCode(Ran(argv, Interpret(verb, returnCode))) == returnCode
    ensures ProcessStatus(ExitCode(Ran(argv, Interpret(verb, returnCode)))) == 0 <==> returnCode % 256 == 0
  {
  }

  /** The menu contents for the decrypted entries `es`. */
  function SelectionList(es: seq<Entry>): seq<string> {
    SortDescending(KeyOrder(es))
  }

  /**
   * The menu offers every key of `all_entries` once and nothing else, in
   * case-insensitively descending order.
   */
  lemma SelectionListSpec(es: seq<Entry>)
    ensures Distinct(SelectionList(es))
    ensures forall k :: k in SelectionList(es) <==> k in Table(es)
    ensures forall i, j :: 0 <= i < j < |SelectionList(es)| ==>
      KeyLe(SelectionList(es)[j], SelectionList(es)[i])
  {
    KeyOrderIsKeys(es);
    SortDescendingSpec(KeyOrder(es));
  }

  /** The menu's answer: nothing or an empty string, a key, or (a `KeyError`) no key. */
  datatype Choice = Cancelled | Missing(key: string) | Chosen(key: string, entry: Entry)

  /** `if not selection: sys.exit(1)` followed by `all_entries[selection]`. */
  function Choose(table: map<string, Entry>, picked: Option<string>): (c: Choice)
    ensures c.Cancelled? <==> picked == None || picked == Some("")
    ensures c.Missing? <==> picked.Some? && picked.value != "" && picked.value !in table
    ensures c.Chosen? ==> picked == Some(c.key) && c.key != "" && c.key in table && c.entry == table[c.key]
  {
    match picked
    case None => Cancelled
    case Some(s) =>
      if s == "" then Cancelled
      else if s !in table then Missing(s)
      else Chosen(s, table[s])
  }

  /** An entry titled " (…" has the empty display title, which the menu can never pass on. */
  lemma EmptyTitleNeverChosen(table: map<string, Entry>, picked: Option<string>, e: Entry)
    requires StartsWith(e.title, Marker)
    ensures DisplayTitle(e.title) == ""
    ensures Choose(table, picked).Chosen? ==> Choose(table, picked).key != DisplayTitle(e.title)
  {
  }

  /** The keychain request for an operation; the token is used only by `add`. */
  function RequestFor(op: Operation, user: string, token: string): (req: Request)
    ensures req.account == user && req.server == Service && req.keychain == KeychainFile
    ensures req.AddInternetPassword? <==> op == Add
    ensures req.AddInternetPassword? ==> req.password == token
  {
    match op
    case Add => AddInternetPassword(user, Service, token, KeychainFile)
    case Remove => DeleteInternetPassword(user, Service, KeychainFile)
  }

  /**
   * How the add path ends, given what the database and the menu answer:
   * decryption fails, the answer cancels or names no key, or the token of the
   * chosen entry goes into the add tuple.
   */
  ghost predicate AddPathEnds(database: string, user: string, host: Host, o: Outcome) {
    var db := host.openDatabase(database, host.password, host.keyFile);
    if db.None? then o == OpenFailed
    else
      match Choose(Table(db.value), host.pick(SelectionList(db.value)))
      case Cancelled => o == SelectionCancelled
      case Missing(key) => o == SelectionNotFound(key)
      case Chosen(_, entry) =>
        o.Ran? && o.argv == SecurityArgv(AddInternetPassword(user, Service, entry.password, KeychainFile))
  }

  /** Lines 83-142 of `main()`, entered once the operation is known to be `add` or `rm`. */
  method Store(database: string, user: string, op: Operation, host: Host) returns (o: Outcome)
    ensures op == Add ==> AddPathEnds(database, user, host, o)
    ensures op == Remove ==> o.Ran? && o.argv == SecurityArgv(DeleteInternetPassword(user, Service, KeychainFile))
    ensures o.Ran? || o == OpenFailed || o == SelectionCancelled || o.SelectionNotFound?
    ensures o.Ran? ==> o.report == Interpret(Verb(ParseSecurityArgv(o.argv).value), host.run(o.argv))
  {
    var token := "";
    if op == Add {
      var db := host.openDatabase(database, host.password, host.keyFile);
      if db.None? {
        return OpenFailed;
      }
      var keys, table := BuildEntries(db.value);
      var selectionList := SortDescending(keys);
      match Choose(table, host.pick(selectionList))
      case Cancelled =>
        return SelectionCancelled;
      case Missing(key) =>
        return SelectionNotFound(key);
      case Chosen(_, entry) =>
        token := entry.password;
    }
    var request := RequestFor(op, user, token);
    var securityArgs := SecurityArgv(request);
    o := Ran(securityArgs, Interpret(Verb(request), host.run(securityArgs)));
  }

  /** `main()`, one early exit after another. */
  method Run(argv: seq<string>, host: Host) returns (o: Outcome)
    ensures IsVersionRequest(argv) ==> o == ShowedVersion
    ensures !IsVersionRequest(argv) && |argv| != 4 ==> o == ShowedUsage
    ensures |argv| == 4 && !host.isFile(argv[1]) ==> o == FileNotFound(argv[1])
    ensures |argv| == 4 && host.isFile(argv[1]) && !host.profileExists(ProfileUrl(argv[2]))
      ==> o == UserNotFound(ProfileUrl(argv[2]))
    ensures (|argv| == 4 && host.isFile(argv[1]) && host.profileExists(ProfileUrl(argv[2]))
             && argv[3] !in ["add", "rm"]) ==> o == UnknownOperation(argv[3])
    // a keychain command is built only once every check has passed
    ensures o.Ran? ==>
      && |argv| == 4 && host.isFile(argv[1]) && host.profileExists(ProfileUrl(argv[2]))
      && argv[3] in ["add", "rm"]
    ensures (|argv| == 4 && argv[3] == "rm" && host.isFile(argv[1])
             && host.profileExists(ProfileUrl(argv[2]))) ==>
      o.Ran? && o.argv == SecurityArgv(DeleteInternetPassword(argv[2], Service, KeychainFile))
    ensures (|argv| == 4 && argv[3] == "add" && host.isFile(argv[1])
             && host.profileExists(ProfileUrl(argv[2]))) ==> AddPathEnds(argv[1], argv[2], host, o)
    ensures o.Ran? ==> o.report == Interpret(Verb(ParseSecurityArgv(o.argv).value), host.run(o.argv))
    ensures ExitCode(o) == 0 <==> o == ShowedVersion || (o.Ran? && o.report.Succeeded?)
  {
    match ResolveArgs(argv)
    case Version =>
      return ShowedVersion;
    case Usage =>
      return ShowedUsage;
    case Positional(database, user, operation) =>
      if !host.isFile(database) {
        return FileNotFound(database);
      }
      var url := ProfileUrl(user);
      if !host.profileExists(url) {
        return UserNotFound(url);
      }
      var op := ParseOperation(operation);
      if op.None? {
        return UnknownOperation(operation);
      }
      o := Store(database, user, op.value, host);
  }

  /**
   * On the add path the keychain command carries the password of the entry
   * the menu chose, and that entry is the last non-recycled database entry
   * with the chosen display title.
   */
  lemma AddUsesLastEntry(database: string, user: string, host: Host, o: Outcome, i: int)
    requires AddPathEnds(database, user, host, o) && o.Ran?
    requires var db := host.openDatabase(database, host.password, host.keyFile);
      && db.Some?
      && var picked := host.pick(SelectionList(db.value));
      && picked.Some? && LastSelects(db.value, i, picked.value)
    ensures var db := host.openDatabase(database, host.password, host.keyFile);
      o.argv == SecurityArgv(AddInternetPassword(user, Service, db.value[i].password, KeychainFile))
  {
    var db := host.openDatabase(database, host.password, host.keyFile);
    var picked := host.pick(SelectionList(db.value));
    TableLastWriteWins(db.value, i, picked.value);
  }
}
