/** Failure-carrying datatypes shared by every module of the model. */
module Wrappers {

  /** An optional value: Rust's `Option<T>`. */
  datatype Option<+T> = None | Some(value: T)

  /** A value or an error: Rust's `Result<T, E>`. */
  datatype Result<+T, +E> = Ok(value: T) | Err(error: E)

  /**
   * The outcome of a code-generation step. `Rejected` is the `Err(())` a
   * derivation returns after it has recorded its diagnostics; `Panicked` is a
   * Rust panic (`unwrap`, `expect`, `panic!`) inside the procedural macro,
   * which aborts the whole expansion with the panic message.
   */
  datatype Derived<+T> = Generated(value: T) | Rejected | Panicked(message: string)

  /** The message of `Option::unwrap` on `None`. */
  const UnwrapNoneMessage: string := "called `Option::unwrap()` on a `None` value"

  /** The first element of a sequence, if any. */
  function FirstOf<T>(s: seq<T>): (r: Option<T>)
    ensures r.None? <==> |s| == 0
    ensures r.Some? ==> r.value == s[0]
  {
    if |s| == 0 then None else Some(s[0])
  }

  /** A first-value-sticks slot: kept if already set, else the first candidate. */
  function FirstWins<T>(current: Option<T>, candidates: seq<T>): Option<T> {
    if current.Some? then current else FirstOf(candidates)
  }

  /** Offering `a` and then `b` is offering `a + b`. */
  lemma FirstWinsStep<T>(current: Option<T>, a: seq<T>, b: seq<T>)
    ensures FirstWins(FirstWins(current, a), b) == FirstWins(current, a + b)
  {
    if current.None? && |a| > 0 {
      assert (a + b)[0] == a[0];
    }
  }

  /** Regrouping a four-way concatenation. */
  lemma ConcatRegroup<T>(a: seq<T>, b: seq<T>, c: seq<T>, d: seq<T>)
    ensures a + b + c + d == a + (b + c) + d
  {
  }

  /** Regrouping a three-way concatenation. */
  lemma ConcatAssoc<T>(a: seq<T>, b: seq<T>, c: seq<T>)
    ensures a + b + c == a + (b + c)
  {
  }
}
