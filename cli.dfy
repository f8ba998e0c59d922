/**
 * Command-line resolution of `gh-token.py`: `prog -v`, or
 * `prog <KeePass file> <GitHub username> add|rm`; anything else is a usage error.
 */
module Cli {
  import opened Wrappers

  /** The two operations the script performs on the keychain. */
  datatype Operation = Add | Remove

  /** The word that selects an operation on the command line. */
  function OperationName(op: Operation): string {
    match op
    case Add => "add"
    case Remove => "rm"
  }

  /** The membership test `db_operation not in ["add", "rm"]`. */
  function ParseOperation(s: string): (r: Option<Operation>)
    ensures r.Some? <==> s in ["add", "rm"]
  {
    if s == "add" then Some(Add)
    else if s == "rm" then Some(Remove)
    else None
  }

  /** Parsing accepts exactly the names of the operations, each for its own operation. */
  lemma OperationNameInverse(op: Operation, s: string)
    ensures ParseOperation(s) == Some(op) <==> OperationName(op) == s
  {
  }

  /** What `main` decides from the length and contents of `sys.argv` alone. */
  datatype Invocation =
    | Version
    | Usage
    | Positional(database: string, user: string, operation: string)

  predicate IsVersionRequest(argv: seq<string>) {
    |argv| == 2 && argv[1] == "-v"
  }

  /** `argv` includes the program name at index 0. */
  function ResolveArgs(argv: seq<string>): (r: Invocation)
    ensures r.Version? <==> IsVersionRequest(argv)
    ensures r.Usage? <==> !IsVersionRequest(argv) && |argv| != 4
    ensures r.Positional? ==> argv == [argv[0], r.database, r.user, r.operation]
  {
    if IsVersionRequest(argv) then Version
    else if |argv| != 4 then Usage
    else Positional(argv[1], argv[2], argv[3])
  }

  /** A command line that asks for `inv`, given the program name. */
  function CommandLine(program: string, inv: Invocation): (argv: seq<string>)
    requires !inv.Usage?
    ensures ResolveArgs(argv) == inv
    ensures |argv| > 0 && argv[0] == program
  {
    match inv
    case Version => [program, "-v"]
    case Positional(db, user, op) => [program, db, user, op]
  }
}
