/**
 * The records of the portal's database: users, weekly books, transactions and
 * the append-only action log, together with the session an authenticated
 * request carries and the shape of an HTTP reply.
 */
module Domain {
  import opened Text
  import opened Calendar

  /** Database-generated row identifiers. */
  type Id = nat

  datatype Role = ADMIN | USER
  datatype UserStatus = ACTIVE | BANNED | REMOVED
  datatype BookStatus = ACTIVE | INACTIVE | CLOSED

  datatype ActionType =
    | USER_CREATED | USER_UPDATED | USER_REMOVED | USER_BANNED
    | BOOK_CREATED | BOOK_UPDATED | BOOK_CLOSED
    | TRANSACTION_CREATED | TRANSACTION_UPDATED | TRANSACTION_DELETED

  datatype TargetType = USER | BOOK | TRANSACTION

  /** The spelling of an action type as stored and shown. */
  function ActionName(a: ActionType): string {
    match a
    case USER_CREATED => "USER_CREATED"
    case USER_UPDATED => "USER_UPDATED"
    case USER_REMOVED => "USER_REMOVED"
    case USER_BANNED => "USER_BANNED"
    case BOOK_CREATED => "BOOK_CREATED"
    case BOOK_UPDATED => "BOOK_UPDATED"
    case BOOK_CLOSED => "BOOK_CLOSED"
    case TRANSACTION_CREATED => "TRANSACTION_CREATED"
    case TRANSACTION_UPDATED => "TRANSACTION_UPDATED"
    case TRANSACTION_DELETED => "TRANSACTION_DELETED"
  }

  function TargetName(t: TargetType): string {
    match t
    case USER => "USER"
    case BOOK => "BOOK"
    case TRANSACTION => "TRANSACTION"
  }

  /**
   * Who performed an action: a user, the scheduler (`'system'`), or the fixed
   * actor id the signup handler writes for self-registration.
   */
  datatype Actor = UserActor(id: Id) | SystemActor | RegistrationActor

  datatype User = User(
    id: Id, username: string, name: string, email: string,
    passwordHash: string, role: Role, status: UserStatus)

  /** A user as returned to a client: every field except the password hash. */
  datatype PublicUser = PublicUser(
    id: Id, username: string, name: string, email: string, role: Role, status: UserStatus)

  datatype Book = Book(
    id: Id, title: string, startDate: Day, endDate: Day,
    durationDays: int, status: BookStatus, createdBy: Actor)

  datatype Transaction = Transaction(
    id: Id, userId: Id, bookId: Id, transactionDate: Day,
    amountGained: real, amountSpent: real, note: Option<string>)

  /**
   * The free-text `details` of a log entry.  Transaction entries interpolate
   * two JavaScript numbers; the model keeps the numbers, not their rendering.
   */
  datatype Detail = Text(text: string) | AmountsDetail(gained: real, spent: real)

  datatype ActionLog = ActionLog(
    actorId: Actor, actionType: ActionType, targetType: TargetType,
    targetId: Id, details: Detail)

  /** The authenticated identity a request carries. */
  datatype Session = Session(userId: Id, role: Role, status: UserStatus)

  /** A JSON reply: a success status with a body, or an error status with a message. */
  datatype Reply<T> = Success(code: nat, body: T) | Failure(code: nat, message: string)

  /** Stands for the text zod puts in a parse error; its wording is not modelled. */
  const ValidationFailed: string := "Validation failed"

  /** Stands for the error Prisma raises when a date string is not a valid date. */
  const InvalidDate: string := "Invalid date"
}
