/** Shared value types: Java's nullable references, the service's failures,
    and the 32-bit `Integer` that holds the view counter. */
module Base {

  /** A nullable Java reference: `None` stands for `null`. */
  datatype Option<+T> = None | Some(value: T)

  /** The ways a catalog operation fails.
      NotFound: the `RuntimeException` thrown when an id has no row.
      ConstraintViolation: the database refuses a row (a null NOT NULL column
      or a value longer than its column). */
  datatype Error = NotFound | ConstraintViolation

  /** An operation that returns a value or throws. */
  datatype Result<+T> = Success(value: T) | Failure(error: Error)

  /** An operation that returns nothing (`void`) or throws. */
  datatype Outcome = Pass | Fail(error: Error)

  const INT32_MIN: int := -0x8000_0000
  const INT32_MAX: int := 0x7fff_ffff

  /** Java's `int` / `Integer` value range. */
  newtype int32 = x: int | -0x8000_0000 <= x < 0x8000_0000

  /** Java's `x + 1` on an `int`: two's-complement wrap-around at the top. */
  function Inc32(x: int32): (r: int32)
    ensures x as int < INT32_MAX ==> r as int == x as int + 1
    ensures x as int == INT32_MAX ==> r as int == INT32_MIN
  {
    if x == 0x7fff_ffff then -0x8000_0000 else x + 1
  }

  /** No element occurs twice. */
  ghost predicate Distinct<T>(s: seq<T>) {
    forall i, j | 0 <= i < j < |s| :: s[i] != s[j]
  }
}
