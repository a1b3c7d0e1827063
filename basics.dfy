/** Failure-carrying wrappers and sequence helpers shared by the other modules. */
module Basics {

  datatype Option<+T> = None | Some(value: T)

  /** The value of a computation that either succeeds or raises the error `error`. */
  datatype Result<+T, +E> = Ok(value: T) | Err(error: E)

  /** The elements of `s`, as a set. */
  function Elems<T>(s: seq<T>): set<T> {
    set x | x in s
  }

  /** `s` back to front, the order Python's `reversed()` visits a list in. */
  function Reverse<T>(s: seq<T>): (r: seq<T>)
    ensures |r| == |s|
    ensures forall k :: 0 <= k < |s| ==> r[k] == s[|s| - 1 - k]
  {
    if s == [] then [] else [s[|s| - 1]] + Reverse(s[..|s| - 1])
  }
}
