/** Small types and functions shared by the components of the model. */
module Wrappers {

  datatype Option<+T> = None | Some(value: T)

  datatype Result<+T, +E> = Ok(value: T) | Err(error: E)

  /** The payload of an operation that returns nothing but success. */
  datatype Unit = Unit

  type Byte = b: int | 0 <= b < 256

  /** An ASCII byte. */
  type Byte7 = b: int | 0 <= b < 128

  function Min(a: int, b: int): int {
    if a < b then a else b
  }

  predicate Between(a: nat, x: nat, b: nat) {
    a <= x < b
  }

  /** The numbers from `a` to just below `b`. */
  function Interval(a: nat, b: nat): (r: set<nat>)
    ensures forall x :: x in r <==> a <= x < b
  {
    set x: nat | x < b && Between(a, x, b)
  }

  function Max(a: int, b: int): int {
    if a < b then b else a
  }
}
