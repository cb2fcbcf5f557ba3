/** Shared value types: optional values, results with an error, and the
    nullable TEXT column values that SQLite hands back to Python. */
module Values {

  /** `None` stands for Python's `None`, i.e. SQL NULL. */
  datatype Option<+T> = None | Some(value: T) {

    function GetOr(default: T): T {
      match this
      case Some(v) => v
      case None => default
    }
  }

  /** A value, or the exception that ended the request. */
  datatype Result<+T, +E> = Success(value: T) | Failure(error: E)

  /** A nullable TEXT column value. */
  type Text = Option<string>

  /** Python truthiness of a column value: NULL and "" are false. */
  predicate Truthy(t: Text) {
    t.Some? && |t.value| > 0
  }

  /** How an f-string renders a column value: NULL prints as "None". */
  function Show(t: Text): string {
    match t
    case None => "None"
    case Some(s) => s
  }
}
