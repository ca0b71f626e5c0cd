/** Small types and arithmetic used across the kernel model. */
module Prelude {

  /** u8 */
  type Byte = x: int | 0 <= x < 256

  datatype Option<T> = None | Some(value: T)

  function Min(a: nat, b: nat): (m: nat)
    ensures m <= a && m <= b && (m == a || m == b)
  {
    if a < b then a else b
  }

  /** saturating_sub */
  function Monus(a: nat, b: nat): (d: nat)
    ensures a <= b + d && (d == 0 || d + b == a)
  {
    if a < b then 0 else a - b
  }
}
