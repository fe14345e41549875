/** Go's error values and multiple returns, and the traces of calls an
    operation makes into collaborators that lie outside the model (the git
    process, the git client interface). */
module Calls {

  /** A Go `error`: nil, or a value whose Error() text is `msg`. */
  datatype Error = Nil | Err(msg: string)

  /** A Go `(T, error)` return. Unlike a Result, the value is present on
      both paths: Go code may return a partial value next to an error. */
  datatype Pair<T> = Pair(value: T, err: Error)

  /** A value together with the calls, in the order made, that an
      operation issued to a collaborator to compute it. */
  datatype Traced<C, T> = Traced(value: T, calls: seq<C>)
}
