/** Option and Result, used for the source's `find` and its aborting calls, and one fact about sequences. */
module Wrappers {

  datatype Option<+T> = None | Some(value: T)

  /** The two ways the core aborts: mismatched layers and an unowned cell. */
  datatype Failure = DimensionMismatch | NoRegionAtPoint

  datatype Result<+T> = Ok(value: T) | Err(error: Failure)

  /** Concatenation regroups freely. */
  lemma AppendAssoc<T>(a: seq<T>, b: seq<T>, c: seq<T>)
    ensures a + (b + c) == (a + b) + c
  {
  }
}
