/**
 * The ways a command of the artifact builder stops, and the small
 * failure-carrying datatypes the rest of the model uses.
 */
module Outcomes {

  datatype Option<+T> = None | Some(value: T)

  /** Why a step stopped. Each constructor stands for one exception or error the PHP code raises. */
  datatype Error =
    | ProcessFailed(command: string, operand: seq<string>)  // a shell command exited non-zero
    | NotProjectRoot                                          // assertRootLocation
    | DirtyTree                                               // assertRepositoryIsClean
    | DocrootNotFound                                         // calculateDocrootFolder
    | BranchNotDetected                                       // getCurrentBranch
    | ArtifactMissing                                         // assertArtifactExists
    | HashNotWritten                                          // the catch around the hash.txt step
    | CleanupFailed                                           // the catch around clearing the artifact folder
    | InvalidArgument(key: string)                            // a mistyped configuration key
    | TypeError(what: string)                                 // null where a string is declared
    | UninitializedProperty(name: string)                     // a typed property read before it was set
    | ArgumentCountError(builtin: string)                     // a PHP built-in called with too few arguments

  datatype Result<+T> = Ok(value: T) | Err(error: Error)

  datatype Outcome = Pass | Fail(error: Error)
}
