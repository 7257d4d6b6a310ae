/**
  What the command-line scripts have in common: how they read their
  arguments, what they report, and how a verdict becomes an exit status.
 */
module Cli {
  import opened Integrity
  import opened Verification

  /**
    An argument the script was given. `process.argv[i]` is absent or a
    string, and the scripts test it with `!arg`, which also rejects the
    empty string.
   */
  predicate Given(arg: Option<string>)
  {
    arg.Some? && arg.value != ""
  }

  /** The distinct outcomes the scripts report, each with its own message. */
  datatype Message =
    | Usage
    | FileNotFound
    | NotInDatabase
    | NotOnBlockchain
    | Authentic
    | TamperedWarning

  /** How a script run ends: the status passed to `process.exit` and what it reported. */
  datatype Exit = Exit(code: nat, message: Message)

  /** The report of a verdict by a script that exits with `isValid ? 0 : 1`. */
  function ExitFor(v: Verdict): (e: Exit)
    requires Consistent(v)
    ensures e.code == 0 <==> e.message == Authentic
    ensures e.code <= 1
    ensures e.message == NotInDatabase <==> v.ContentNotFound?
    ensures e.message == NotOnBlockchain <==> v.LedgerRecordNotFound?
    ensures e.message == Authentic <==> v.Checked? && v.currentHash == v.storedHash
    ensures e.message == TamperedWarning <==> v.Checked? && v.currentHash != v.storedHash
  {
    match v
    case ContentNotFound => Exit(1, NotInDatabase)
    case LedgerRecordNotFound => Exit(1, NotOnBlockchain)
    case Checked(valid, _, _, _, _) => if valid then Exit(0, Authentic) else Exit(1, TamperedWarning)
  }
}
