/** Types shared by the modules of the model. */
module Basics {

  /** A value that may be absent, as the program's `Option`. */
  datatype Option<+T> = None | Some(value: T)

  /** 2 to the power of `k`. */
  function Pow2(k: nat): nat { if k == 0 then 1 else 2 * Pow2(k - 1) }

  /** One octet on the wire. */
  type byte = x: int | 0 <= x < 0x100

  /** One 16-bit Modbus register. */
  type register = x: int | 0 <= x < 0x1_0000
}
