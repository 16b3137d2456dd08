/**
 * What several components share.
 */
module Basics {

  datatype Option<+T> = None | Some(value: T)

  type byte = b: int | 0 <= b < 256

  // The position after i on a circle of n.
  function After(i: nat, n: nat): nat {
    if i + 1 == n then 0 else i + 1
  }
}
