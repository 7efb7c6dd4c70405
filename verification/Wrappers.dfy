/** Outcomes shared by every component: the error values of the Go code, and the
    two ways of carrying a possibly missing value.
    DirectoryAsBlob is no error of the Go code: it marks the one place where the code goes on
    and the model stops, a change that would file the row of a directory as a blob. */
module Wrappers {

  datatype Option<+T> = None | Some(value: T)

  datatype Error =
    | PathNotFound
    | EntryExists
    | BlobMustBeLeaf
    | NameIsEmpty
    | ObjectMissing
    | MalformedChange
    | ActionMismatch
    | Conflict
    | NilCommit
    | NoCommonAncestor
    | CommitExists
    | NotFound
    | WrongState
    | StaleBase
    | DirectoryAsBlob

  datatype Result<+T> = Ok(value: T) | Err(error: Error)
}
