/** Vocabulary shared by every part of the lending core: optional values,
    outcomes of operations that may be rejected, identifiers and instants. */
module Common {

  datatype Option<+T> = None | Some(value: T)

  /** A value, or the reason the operation was rejected. */
  datatype Result<+T> = Ok(value: T) | Err(error: Error)

  /** Success without a value, or the reason the operation was rejected. */
  datatype Outcome = Pass | Fail(error: Error)

  /** Every way a lending operation can be refused. The source raises a
      ValidationError, returns an error response, or (for NoBookOnRecord and
      UndeclaredStatus) fails with an AttributeError; the model returns one of these. */
  datatype Error =
    | MissingField            // a required request field is absent or falsy
    | BookNotFound
    | ProfileNotFound
    | BundleNotFound
    | NotAvailable            // item status does not allow borrowing
    | NoFreePlan
    | NoBundlePlan
    | LimitReached            // concurrent-borrow limit reached
    | ReturnBeforeBorrow
    | NoActiveRecord
    | CannotDelete
    | CannotWriteOff
    | CannotMarkLost
    | NoPlanSelected
    | OverlappingSubscription
    | DuplicateCode           // a unique field already in use
    | InvalidField            // a length or pattern constraint fails
    | Protected               // a protected foreign key still refers to the row
    | NoBookOnRecord          // a borrow record without a book reached book-only code
    | UndeclaredStatus        // code names a Book.Status member the class does not declare

  /** Instants are integer microseconds since a fixed epoch (the resolution
      of Python datetimes); every reading of the clock is a parameter. */
  type Instant = int

  const MicrosPerDay: int := 86_400_000_000

  /** `timedelta(days=30)`, the fixed loan period of both borrow handlers. */
  const LoanPeriod: int := 30 * MicrosPerDay

  type BookId = int
  type BundleId = int
  type UserId = int

  /** Some element of a non-empty set. */
  lemma Element<T>(s: set<T>) returns (x: T)
    requires s != {}
    ensures x in s
  {
    x :| x in s;
  }
}
