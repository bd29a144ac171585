/**
What the modules share: an optional value, an octet, sequences without repetition, and places on
a ring.
*/
module Basics {
  datatype Option<T> = None | Some(value: T)

  type Byte = x: int | 0 <= x < 256

  ghost predicate Distinct<T>(s: seq<T>) {
    forall i, j :: 0 <= i < j < |s| ==> s[i] != s[j]
  }

  /** The cell `i` places after `start` on a ring of `size` cells. */
  function Wrapped(start: nat, i: nat, size: nat): int {
    if start + i >= size then start + i - size else start + i
  }
}
