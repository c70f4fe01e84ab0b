/** Small wrappers shared by every module: an optional value, and the outcome of a
    step of the script that may end in an exception nobody catches. */
module Outcomes {

  datatype Option<+T> = None | Some(value: T)

  /** An exception the script raises and does not handle, so the run stops there. */
  datatype Failure =
    | NameError(name: string)          // a name used but never bound (`sys`, `root_path`)
    | FileNotFoundError(file: string)  // `open` on a file that does not exist

  datatype Outcome<+T> = Done(value: T) | Raised(failure: Failure)
}
