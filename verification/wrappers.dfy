/** Failure-compatible datatypes shared by every layer of the model. */
module Wrappers {

  /** Rust's `Option<T>`. */
  datatype Option<+T> = None | Some(value: T)

  /** The result of `nth_after`/`nth_before`: either the index reached, or the
      strictly positive number of steps that could not be taken
      (Rust's `Result<Index, NonZeroUsize>`). */
  datatype Nth = Reached(index: nat) | Remainder(left: nat)

  /** Rust's `core::ops::Bound`, over indexes. */
  datatype Bound = Included(at: nat) | Excluded(at: nat) | Unbounded

  /** Whether `i` lies within the span `(lower, upper)`. */
  predicate Within(span: (Bound, Bound), i: nat) {
    (match span.0
     case Included(n) => n <= i
     case Excluded(n) => n < i
     case Unbounded => true)
    &&
    (match span.1
     case Included(n) => i <= n
     case Excluded(n) => i < n
     case Unbounded => true)
  }
}
