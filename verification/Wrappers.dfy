/** Small shared types: results with errors, and constant vectors. */
module Wrappers {
  /** A value, or the message of the exception thrown instead. */
  datatype Result<+T> = Ok(value: T) | Error(message: string)

  /** std::vector<T>(size, v). */
  function Repeat<T>(v: T, size: nat): (r: seq<T>)
    ensures |r| == size && forall i :: 0 <= i < size ==> r[i] == v
  {
    seq(size, _ => v)
  }
}
