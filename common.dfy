/**
 * Shared vocabulary of the storage layer: optional values (Java `null`),
 * the exceptions the core throws, the result of an operation that may
 * throw, Java's `Integer.compareTo`, and the page capacity.
 */
module Common {

  /** A Java reference that may be `null`. */
  datatype Option<+T> = None | Some(value: T)

  /** The exceptions the storage layer can raise. */
  datatype DbError =
    | AlreadyExists      // DBAlreadyExistsException
    | NotFound           // DBNotFoundException
    | IndexOutOfBounds   // ArrayIndexOutOfBoundsException from Vector.get
    | NullPointer        // NullPointerException from compareTo(null)
    | MissingFile        // FileNotFoundException when a page file is gone

  /** Either a value or the exception that was thrown instead. */
  datatype Outcome<+T> = Ok(value: T) | Err(error: DbError)

  /**
   * Maximum number of tuples per page, read from DBApp.config by the
   * source; a positive constant here.
   */
  const MaxRowsCountInPage: int := 200

  /** `Integer.compareTo`: -1, 0 or 1 as x is below, equal to or above y. */
  function CompareValues(x: int, y: int): (r: int)
    ensures r == -1 <==> x < y
    ensures r == 0 <==> x == y
    ensures r == 1 <==> x > y
  {
    if x < y then -1 else if x == y then 0 else 1
  }
}
