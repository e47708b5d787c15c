/** Failure-carrying wrappers shared by the model: an absent value, and the
    success-or-exception outcome of a Python call that may raise. */
module Results {

  datatype Option<+T> = None | Some(value: T)

  /** The result of a call that either returns a value or raises an error. */
  datatype Result<+R, +E> = Success(value: R) | Failure(error: E)

  /** The result of a call that returns nothing of interest or raises an error. */
  datatype Outcome<+E> = Pass | Fail(error: E)

  /** The state a sequence of host calls has reached, and the error that
      stopped it, if one was raised (Python propagates it and skips the rest). */
  datatype Run<+S, +E> = Run(state: S, error: Option<E>)

  /** The error an outcome carries, if any. */
  function ErrorOf<E>(o: Outcome<E>): (r: Option<E>)
    ensures r.None? <==> o.Pass?
    ensures o.Fail? ==> r == Some(o.error)
  {
    if o.Pass? then None else Some(o.error)
  }
}
