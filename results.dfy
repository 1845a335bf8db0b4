/** Failure-compatible wrappers and the error conditions the chess board reports. */
module Results {

  /** The reasons an operation rejects its arguments (each is an IllegalArgumentException in the source). */
  datatype Error =
    | InvalidColor        // a colour other than "W" or "B"
    | InvalidLetter       // an identifying letter other than P, R, N, B, Q, K
    | MalformedEncoding   // a board entry that is neither "" nor a two-letter piece code
    | WrongCardinality    // a board list whose length is not 64
    | InvariantViolation  // a board without exactly one King of each colour
    | UnknownSquare       // a position outside "a1" .. "h8"
    | NoSuchPiece         // a move from an empty square

  datatype Option<+T> = None | Some(value: T)

  datatype Result<+T> = Ok(value: T) | Err(error: Error) {
    predicate IsFailure() { Err? }

    function PropagateFailure<U>(): Result<U>
      requires Err?
    {
      Err(error)
    }

    function Extract(): T
      requires Ok?
    {
      value
    }
  }

  /** The outcome of an operation that returns nothing (a Java `void` method that may throw). */
  datatype Outcome = Pass | Fail(error: Error)

  function Get<K, V>(m: map<K, V>, k: K): (r: Option<V>)
    ensures r.Some? <==> k in m
    ensures r.Some? ==> r.value == m[k]
  {
    if k in m then Some(m[k]) else None
  }
}
