/** Types shared by every component. */
module Basics {

  datatype Option<+T> = None | Some(value: T)

  /** One octet. Shifts and masks of the program are written as `/` and `%` on it. */
  type byte = x: int | 0 <= x < 256

  type Bytes = seq<byte>

  /** A 32-bit IPv4 address as the four octets `net.IP.To4` returns. */
  type IPv4 = s: Bytes | |s| == 4 witness [0, 0, 0, 0]

  function U16(hi: byte, lo: byte): nat {
    256 * hi + lo
  }

  /** What a signed 64-bit machine word holds after an operation whose exact result is `x`. */
  function Wrap64(x: int): int {
    (x + 0x8000_0000_0000_0000) % 0x1_0000_0000_0000_0000 - 0x8000_0000_0000_0000
  }

  const MAX_INT := 0x7FFF_FFFF_FFFF_FFFF
  const MIN_INT := -0x8000_0000_0000_0000

  /** Nanoseconds, as `time.Second`. */
  const SECOND := 1_000_000_000

  function Pow2(n: nat): (p: nat)
    ensures p > 0
  {
    if n == 0 then 1 else 2 * Pow2(n - 1)
  }
}
