/** Failure-compatible wrappers shared by every module of the model:
    `Option` stands for a JavaScript value that may be `undefined`/`null`,
    `Result` for a call that either returns or throws. */
module Common {

  datatype Option<+T> = None | Some(value: T) {

    /** The value, or `fallback` when there is none (JavaScript's destructuring default). */
    function GetOr(fallback: T): T {
      match this
      case Some(v) => v
      case None => fallback
    }
  }

  datatype Result<+T, +E> = Success(value: T) | Failure(error: E)

  function Max(a: int, b: int): int {
    if a < b then b else a
  }

  function Min(a: int, b: int): int {
    if a < b then a else b
  }

  /** Concatenation regroups freely; stated once so proofs can name the step. */
  lemma ConcatAssoc<T>(a: seq<T>, b: seq<T>, c: seq<T>)
    ensures (a + b) + c == a + (b + c)
  {
  }
}
