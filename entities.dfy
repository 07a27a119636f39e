/** The two persisted entities and the Option type that stands for Java's
    nullable references and `Optional`. */
module Entities {

  datatype Option<+T> = None | Some(value: T)

  /** A row of the account table. `username` and `password` are nullable
      strings, exactly as they arrive in a request body. */
  datatype Account = Account(id: int, username: Option<string>, password: Option<string>)

  /** A row of the message table. `postedAt` is carried through untouched. */
  datatype Message = Message(id: int, postedBy: int, messageText: Option<string>, postedAt: int)
}
