/** Error tags of the in-memory filesystem and the result wrappers its
    operations return instead of throwing. */
module Errors {

  /** One tag per throw site of the filesystem: the errno code named there,
      or the message text for the throws that carry no code. */
  datatype Error =
    | EINVAL          // path matches neither grammar
    | ENOENT          // missing entry or non-directory ancestor
    | ENOTDIR         // an object that is not a directory where one is needed
    | EISDIR          // write to the root or onto a directory
    | EEXIST          // mkdir onto an existing directory
    | EPERM           // removal of the root
    | NoContent       // write with neither content nor encoding
    | TypeError       // a Buffer constructor or a method given a value it rejects
    | SymlinkFailed   // "Cannot create symlink ..."
    | MountFailed     // "Cannot mount ..."
    | NotASymlink     // "Target not a symLink!"
    | NotAMountPoint  // "Path not a mount point!"

  datatype Option<+T> = None | Some(value: T)

  datatype Result<+T> = Ok(value: T) | Err(error: Error)

  datatype Outcome = Pass | Fail(error: Error)

  /** The outcome of a result, forgetting its value. */
  function OutcomeOf<T>(r: Result<T>): (o: Outcome)
    ensures o.Pass? <==> r.Ok?
    ensures o.Fail? ==> o.error == r.error
  {
    if r.Ok? then Pass else Fail(r.error)
  }
}
