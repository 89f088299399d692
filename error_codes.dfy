/** Status codes returned by the session entry points (ulorawan_error_codes.h). */
module ErrorCodes {

  /** No error occurred. */
  const ErrNone: int := 0
  /** The stack has not been initialised. */
  const ErrInit: int := -1
  /** The stack is not in the correct state for the operation. */
  const ErrState: int := -2
  /** No channel is available. */
  const ErrNoChannel: int := -3
  /** A timer could not be started or stopped. */
  const ErrTimer: int := -13
}
