/** Types and constants shared by all modules. */
module Common {
  type byte = x: int | 0 <= x < 256

  const TWO31: int := 0x8000_0000
  const TWO32: int := 0x1_0000_0000
  const TWO48: int := 0x1_0000_0000_0000
  const TWO56: int := 0x100_0000_0000_0000
  const TWO57: int := 0x200_0000_0000_0000
  const TWO63: int := 0x8000_0000_0000_0000
  const TWO64: int := 0x1_0000_0000_0000_0000

  datatype Option<+T> = None | Some(value: T)

  /** The outcome of reading from the front of a byte sequence. */
  datatype Read<+T> = Fail | Got(value: T, rest: seq<byte>)

  /** What is left of a byte sequence that has been read from the front. */
  predicate Suffix(rest: seq<byte>, bs: seq<byte>) {
    |rest| <= |bs| && rest == bs[|bs| - |rest|..]
  }

  /** A signed 64-bit value as the unsigned one it converts to. */
  function AsUnsigned64(n: int): (r: nat)
    requires -TWO63 <= n < TWO64
    ensures r < TWO64
  {
    if n < 0 then n + TWO64 else n
  }

  /** Two bytes, most significant first. */
  function U16(n: nat): seq<byte>
    requires n < 0x1_0000
  {
    [n / 256, n % 256]
  }
}
