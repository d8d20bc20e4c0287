/**
 * The records the ledger stores: users (accounts) and transaction records,
 * and the errors the services raise.
 */
module Entities {

  /** Primary keys are opaque strings (UUIDs generated by the database). */
  type Id = string

  /**
   * Money in integer cents. Both money columns are fixed-point decimals with
   * two digits after the point, so every amount is a whole number of cents.
   */
  type Cents = int

  /** The balance every new account starts with: 100.00. */
  const StartingBalance: Cents := 10000

  /** A stored account. `password` holds the password hash, never the password. */
  datatype User = User(id: Id, username: string, password: string, birthdate: string, balance: Cents)

  /** A user as listed to clients: every column except the password hash. */
  datatype PublicUser = PublicUser(id: Id, username: string, birthdate: string, balance: Cents)

  function WithoutPassword(u: User): PublicUser
  {
    PublicUser(u.id, u.username, u.birthdate, u.balance)
  }

  /** One completed transfer: who paid, who was paid, and how much. */
  datatype Transaction = Transaction(fromUser: Id, toUser: Id, amount: Cents)

  /** The exception classes the services throw. */
  datatype Exception = BadRequest | NotFound | Conflict

  /** Why an operation was rejected. */
  datatype Error =
    | SelfTransfer          // sender and receiver are the same account
    | NonPositiveAmount     // the amount is zero or negative
    | SenderNotFound        // no account with the sender's id
    | ReceiverNotFound      // no account with the receiver's id
    | InsufficientBalance   // the sender's balance is below the amount
    | UsernameTaken         // signup with a username that is already stored
    | UserNotFound          // balance update of an id that is not stored

  /** The exception class each error is raised as. */
  function ExceptionOf(e: Error): (x: Exception)
    ensures x == BadRequest <==> e == SelfTransfer || e == NonPositiveAmount || e == InsufficientBalance
    ensures x == NotFound <==> e == SenderNotFound || e == ReceiverNotFound || e == UserNotFound
    ensures x == Conflict <==> e == UsernameTaken
  {
    match e
    case SelfTransfer | NonPositiveAmount | InsufficientBalance => BadRequest
    case SenderNotFound | ReceiverNotFound | UserNotFound => NotFound
    case UsernameTaken => Conflict
  }
}
