/** Optional values, outcomes and partial updates. */
module Wrappers {
  datatype Option<+T> = None | Some(value: T)

  /** The value of an operation, or the error it ends with. */
  datatype Result<+T, +E> = Success(value: T) | Failure(error: E)

  /** A field of a partial update: left out, given as null, or given a value. */
  datatype FieldUpdate<T> = Unset | Null | Set(value: T)

  /** The column of a field that must hold a value. */
  function Chosen<T>(field: FieldUpdate<T>, current: T): T {
    if field.Set? then field.value else current
  }

  /** The column of a field that may be null. */
  function ChosenOrNull<T>(field: FieldUpdate<T>, current: Option<T>): Option<T> {
    match field
    case Unset => current
    case Null => None
    case Set(v) => Some(v)
  }
}
