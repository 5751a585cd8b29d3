/** Failure-carrying wrappers shared by every module of the model. */
module Base {

  /** Python's None / JavaScript's null-or-missing, as an explicit alternative. */
  datatype Option<+T> = None | Some(value: T) {
    function GetOr(default: T): T {
      match this
      case Some(v) => v
      case None => default
    }
  }

  /** The outcome of Python code that either returns a value or raises an
      exception carrying a message. */
  datatype Outcome<+T> = Ok(value: T) | Raised(msg: string)

  /** `xs` is `ys` with some elements left out, the rest in their order. */
  predicate IsSubsequence<T(==)>(xs: seq<T>, ys: seq<T>)
    decreases |ys|
  {
    if |xs| == 0 then true
    else if |ys| == 0 then false
    else (xs[0] == ys[0] && IsSubsequence(xs[1..], ys[1..])) || IsSubsequence(xs, ys[1..])
  }
}
