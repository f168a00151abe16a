/**
 * Records of the pickup-point service (internal/models/models.go) and the
 * error values the persistence layer returns.
 *
 * Timestamps are kept as the text the store holds (RFC3339 strings written by
 * the handlers); the store compares and orders them as text, see module Sql.
 */
module Models {

  datatype Option<+T> = None | Some(value: T)

  datatype Result<+T> = Ok(value: T) | Err(error: Error)

  /** Outcome of a store operation that returns only an error (Go `error`, nil on success). */
  datatype Outcome = Done | Failed(error: Error)

  /** A row of the `users` table; `password` holds the stored hash. */
  datatype User = User(id: string, email: string, role: string, password: string)

  /** Go's zero `models.User{}`. */
  const ZeroUser := User("", "", "", "")

  /** A row of the `pvzs` table. */
  datatype Pvz = Pvz(id: string, registrationDate: string, city: string)

  /** A row of the `receptions` table. */
  datatype Reception = Reception(id: string, dateTime: string, pvzId: string, status: string)

  /** A row of the `products` table. */
  datatype Product = Product(id: string, dateTime: string, productType: string, receptionId: string)

  /** The status written by the Receptions handler for a new reception. */
  const InProgress := "in_progress"

  /** The status CloseLastReception writes: the literal 'close', not "closed". */
  const Closed := "close"

  /**
   * Errors of the persistence layer.  NotFound carries the literal message the
   * source returns; Duplicate is an insert rejected by a PRIMARY KEY or UNIQUE
   * constraint of the schema.
   */
  datatype Error =
    | NotFound(message: string)
    | Duplicate(table: string, column: string)
    | HashFailed
    | WrongPassword

  const ReceptionNotFound := NotFound("reception not found")
  const PvzNotFound := NotFound("PVZ not found")
  const UserNotFound := NotFound("user not found")
  const NoProducts := NotFound("no products found in the current reception")

  function NoActiveReception(pvzId: string): Error
  {
    NotFound("no active reception found for PVZ ID: " + pvzId)
  }

  function ReceptionTime(r: Reception): string { r.dateTime }
  function ProductTime(p: Product): string { p.dateTime }
  function RegistrationDate(p: Pvz): string { p.registrationDate }
}
