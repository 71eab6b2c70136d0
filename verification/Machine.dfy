/** The C integer types on the 64-bit machines the library runs on, and conversions to them. */
module Machine {

  /** `unsigned`. */
  type U32 = x: int | 0 <= x < 0x1_0000_0000

  const UINT: nat := 0x1_0000_0000
  const ULONG: nat := 0x1_0000_0000_0000_0000

  /** `unsigned long`. */
  type U64 = x: int | 0 <= x < 0x1_0000_0000_0000_0000

  /** `long`. */
  type S64 = x: int | -0x8000_0000_0000_0000 <= x < 0x8000_0000_0000_0000

  /** Conversion to `int` keeps the lower 32 bits. */
  function ToInt(x: int): (n: int)
    ensures -0x8000_0000 <= n < 0x8000_0000 && (x - n) % UINT == 0
  {
    if x % UINT < 0x8000_0000 then x % UINT else x % UINT - UINT
  }

  /** Conversion to `long`, and signed arithmetic that wraps, keep the lower 64 bits. */
  function ToLong(x: int): (n: S64)
    ensures (x - n) % ULONG == 0
  {
    if x % ULONG < 0x8000_0000_0000_0000 then x % ULONG else x % ULONG - ULONG
  }

  function ToULong(x: int): (n: U64) { x % ULONG }
}
