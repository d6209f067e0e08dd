/** Error values and the Option/Result wrappers that replace the source's
    null returns and thrown exceptions. */
module Outcomes {

  datatype Option<+T> = None | Some(value: T)

  /** One constructor per exception (or sentinel) the modelled code raises. */
  datatype Error =
    | LeafComponent        // LeafComponentException: add/remove child on a Patent
    | ArgumentNull         // ArgumentNullException: null user passed to an extension
    | NullFamily           // MySystemException: InsertNewFamily(null)
    | KeyNotFound          // KeyNotFoundException: Delete of an unknown component id
    | GuidExhausted        // MySystemException: no unique Guid within the attempt limit
    | StoreFailure         // the row store reported -1 and the repository threw
    | UserAlreadyExists    // MySystemException("User already exists")
    | UserNotFound         // NullReferenceException: deleting a user that is not stored
    | NotImplemented       // NotImplementedException: UsersRepository.Update
    | InvalidCredentials   // InvalidCredentialsException
    | WordNotFound         // WordNotFoundException

  datatype Result<+T> = Success(value: T) | Failure(error: Error)
}
