// What several parts share.

module Basics {

  type byte = b: int | 0 <= b < 256

  datatype Option<+T> = None | Some(value: T)

  // A loop as it is written, or as it was meant, where the two differ.
  datatype Reading = Literal | Intended

  function Min(a: nat, b: nat): nat { if a <= b then a else b }
}
