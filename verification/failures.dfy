/** The fatal outcomes of a run and the Result type that carries them.
    Every `error_msg` call in the program ends the process with exit
    status 1; the model turns each into a `Failure` value instead. */
module Failures {

  datatype Error =
    /** A required (section, key) pair is missing from the configuration. */
    | ConfigUnreadable
    /** Removing an entry of the output directory raised; `path` is the joined path. */
    | DeleteFailed(path: string)
    /** A recursive copy was asked to create a destination that already exists. */
    | TargetExists(path: string)

  datatype Result<+T> = Success(value: T) | Failure(error: Error)
}
