/** Shared result types and the error values the backend services return. */
module Common {

  datatype Option<+T> = None | Some(value: T)

  /** The errors the services return. The first eight are the services' own
      messages; the next three stand for errors the database layer passes
      through unchanged; the last stands for a panic, which ends the call
      before anything is written. */
  datatype Error =
    | UserAlreadyExists
    | InvalidCredentials
    | InvalidRefreshToken
    | UserNotFound
    | EmailAlreadyTaken
    | IncorrectPassword
    | InvalidUserId
    | NoteNotFound
    | RecordNotFound      // gorm's "record not found", returned as is
    | DuplicateKey        // a primary key or unique index rejected an insert
    | MissingOwner        // the foreign key to the users table rejected an insert
    | Aborted             // a panic, such as uuid.MustParse given a string that is not a uuid

  datatype Result<+T> = Ok(value: T) | Err(error: Error)

  function Min(a: int, b: int): int { if a <= b then a else b }

  function Max(a: int, b: int): int { if a <= b then b else a }
}
