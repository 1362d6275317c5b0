/** Bytes as numbers. */
module Bytes {
  type Byte = b: nat | b < 256

  /** The number that bytes stand for, the highest one first. */
  function Number(b: seq<Byte>): nat {
    if b == [] then 0 else 256 * Number(b[..|b| - 1]) + b[|b| - 1]
  }
}
