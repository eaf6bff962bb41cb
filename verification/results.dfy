/** Optional values and success-or-error outcomes, used wherever the Python
    code returns None or lets an exception escape. */
module Results {

  /** A value that may be absent (Python's None, or a dictionary key that is missing). */
  datatype Option<+T> = None | Some(value: T)

  /** The outcome of a computation that either returns a value or raises. */
  datatype Result<+T, +E> = Success(value: T) | Failure(error: E)

  /** Python's `d.get(key, [])` on an optional list-valued key. */
  function OrEmpty<T>(o: Option<seq<T>>): seq<T>
  {
    match o
    case Some(xs) => xs
    case None => []
  }
}
