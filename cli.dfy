/**
 * The argument dispatch of `src/main.rs`: the argument vector (program
 * name first) decides one action.  Printing the texts and running the
 * status view or `git log` are the actions' effects and are not modelled.
 */
module Cli {

  /** What `main` does for a given argument vector. */
  datatype Action =
    | ShowAvailableCommands
    | ShowVersion
    | ShowHelp
    | OpenStatus(path: string)
    | OpenLog(path: string)
    | NoAction

  /** The working-tree path used when none is given. */
  const DefaultPath: string := "./"

  /** The path argument of `status` and `log`: the third argument, if there is one. */
  function PathArgument(args: seq<string>): (path: string)
    ensures |args| >= 3 ==> path == args[2]
    ensures |args| < 3 ==> path == DefaultPath
  {
    if |args| >= 3 then args[2] else DefaultPath
  }

  /** The if/else chain of `main`. */
  function Dispatch(args: seq<string>): (action: Action)
    ensures action == ShowAvailableCommands <==> |args| < 2
    ensures action == ShowVersion <==> |args| >= 2 && (args[1] == "--version" || args[1] == "-v")
    ensures action == ShowHelp <==> |args| >= 2 && (args[1] == "--help" || args[1] == "-h")
    ensures action.OpenStatus? <==> |args| >= 2 && args[1] == "status"
    ensures action.OpenLog? <==> |args| >= 2 && args[1] == "log"
    ensures (action.OpenStatus? || action.OpenLog?) ==>
      action.path == if |args| >= 3 then args[2] else "./"
    ensures action == NoAction <==>
      |args| >= 2 && args[1] !in {"--version", "-v", "--help", "-h", "status", "log"}
  {
    if |args| < 2 then ShowAvailableCommands
    else
      var mode := args[1];
      if mode == "--version" || mode == "-v" then ShowVersion
      else if mode == "--help" || mode == "-h" then ShowHelp
      else if mode == "status" then OpenStatus(PathArgument(args))
      else if mode == "log" then OpenLog(PathArgument(args))
      else NoAction
  }

  /** Neither the program name nor anything after the third argument affects the action. */
  lemma DispatchReadsOnlyModeAndPath(args: seq<string>, other: seq<string>)
    requires |args| == |other| || (|args| >= 3 && |other| >= 3)
    requires forall i :: 1 <= i < 3 && i < |args| ==> args[i] == other[i]
    ensures Dispatch(args) == Dispatch(other)
  {
  }
}
