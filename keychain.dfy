/**
 * The macOS `security` command lines the script runs against the login
 * keychain: `add-internet-password` for `add`, `delete-internet-password`
 * for `rm`.
 */
module Keychain {
  import opened Wrappers

  /** `SERVICE`: the server name the keychain item is stored under. */
  const Service: string := "github.com"
  /** `KEYCHAIN_FILE`: the keychain the item is added to or removed from. */
  const KeychainFile: string := "login.keychain"
  /** The protocol code `-r htps` that a GitHub token item needs. */
  const Protocol: string := "htps"

  /** What a `security` invocation asks the keychain to do. */
  datatype Request =
    | AddInternetPassword(account: string, server: string, password: string, keychain: string)
    | DeleteInternetPassword(account: string, server: string, keychain: string)

  /** The subcommand name; the script also reports it on success. */
  function Verb(req: Request): (verb: string)
    ensures verb in ["add-internet-password", "delete-internet-password"]
    ensures verb == "add-internet-password" <==> req.AddInternetPassword?
  {
    match req
    case AddInternetPassword(_, _, _, _) => "add-internet-password"
    case DeleteInternetPassword(_, _, _) => "delete-internet-password"
  }

  /**
   * The argument tuple `security_args`. An add replaces an existing item (`-U`)
   * and restricts the protocol (`-r htps`); a delete names only the account,
   * the server and the keychain.
   */
  function SecurityArgv(req: Request): (argv: seq<string>)
    ensures ParseSecurityArgv(argv) == Some(req)
    ensures argv[0] == "security" && argv[1] == Verb(req) && argv[|argv| - 1] == req.keychain
    ensures req.AddInternetPassword? ==> |argv| == 12
    ensures req.DeleteInternetPassword? ==> |argv| == 7
  {
    match req
    case AddInternetPassword(account, server, password, keychain) =>
      ["security", "add-internet-password", "-a", account, "-s", server,
       "-w", password, "-U", "-r", Protocol, keychain]
    case DeleteInternetPassword(account, server, keychain) =>
      ["security", "delete-internet-password", "-a", account, "-s", server,
       keychain]
  }

  /**
   * Reads back a command line of exactly the two shapes above: the flag words
   * at their positions, the values between them.
   */
  function ParseSecurityArgv(argv: seq<string>): Option<Request> {
    if |argv| == 12 && argv[0] == "security" && argv[1] == "add-internet-password"
       && argv[2] == "-a" && argv[4] == "-s" && argv[6] == "-w" && argv[8] == "-U"
       && argv[9] == "-r" && argv[10] == Protocol
    then Some(AddInternetPassword(argv[3], argv[5], argv[7], argv[11]))
    else if |argv| == 7 && argv[0] == "security" && argv[1] == "delete-internet-password"
       && argv[2] == "-a" && argv[4] == "-s"
    then Some(DeleteInternetPassword(argv[3], argv[5], argv[6]))
    else None
  }

  /** Every command line the reader accepts is the one built for what it reads. */
  lemma ParseSecurityArgvInverse(argv: seq<string>)
    requires ParseSecurityArgv(argv).Some?
    ensures SecurityArgv(ParseSecurityArgv(argv).value) == argv
  {
  }

  /** Distinct requests give distinct command lines. */
  lemma SecurityArgvInjective(a: Request, b: Request)
    requires SecurityArgv(a) == SecurityArgv(b)
    ensures a == b
  {
  }
}
